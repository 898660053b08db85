/**
 * The expression test generator (gen_final and main in gen-expr.c): a
 * fully parenthesised random expression of depth five whose uint32 value is
 * computed while its text is written, and a retry loop that discards every
 * expression whose computation met the division-by-zero flag. The random
 * numbers are a stream the caller supplies.
 */
module GenExpr {
  import opened Unsigned
  import opened Numerals
  import opened Wrappers
  import Lexer
  import Evaluator

  /** DIV_BY_ZERO_FLAG: the value gen_final returns after a division by zero. */
  const Flag: U32 := 0xFFFF_FFFF

  /** The deepest level that still builds an operator; below it, a literal. */
  const MaxLevel: nat := 4

  datatype Op = Add | Sub | Times | Quot

  /** The operator of `switch (rand() % 4)`. */
  function OpOf(r: int): Op
  {
    match r % 4
    case 0 => Add
    case 1 => Sub
    case 2 => Times
    case _ => Quot
  }

  function Symbol(op: Op): char
  {
    match op
    case Add => '+'
    case Sub => '-'
    case Times => '*'
    case Quot => '/'
  }

  /** C's unsigned arithmetic on uint32_t; None for a division by zero. */
  function Compute(op: Op, a: U32, b: U32): (r: Option<U32>)
    ensures r.None? <==> op == Quot && b == 0
  {
    match op
    case Add => Some(Wrap(a + b))
    case Sub => Some(Wrap(a - b))
    case Times => Some(Wrap(Product(a, b)))
    case Quot => if b == 0 then None else Some(Quotient(a, b))
  }

  // ---------------------------------------------------------------------------
  // Expressions

  /** An expression the generator can write: a decimal literal or a parenthesised binary operation. */
  datatype Tree = Leaf(n: nat) | Node(op: Op, left: Tree, right: Tree)

  /** The text gen_final writes: "%u" for a literal, "(L op R)" with a space on each side of the operator. */
  function Print(t: Tree): string
  {
    match t
    case Leaf(n) => Text(n, 10)
    case Node(op, l, r) => "(" + Print(l) + " " + [Symbol(op)] + " " + Print(r) + ")"
  }

  /** The uint32 value of the expression, None when it divides by zero somewhere. */
  function Value(t: Tree): Option<U32>
  {
    match t
    case Leaf(n) => Some(Wrap(n))
    case Node(op, l, r) =>
      if Value(l).Some? && Value(r).Some? then Compute(op, Value(l).value, Value(r).value) else None
  }

  /** The expression and every subexpression have a value, and none of them is the flag. */
  predicate FlagFree(t: Tree)
  {
    Value(t).Some? && Value(t).value != Flag &&
    (t.Node? ==> FlagFree(t.left) && FlagFree(t.right))
  }

  /** Every operator has two operands, and every literal is depth levels down. */
  predicate Perfect(t: Tree, depth: nat)
  {
    if depth == 0 then t.Leaf? else t.Node? && Perfect(t.left, depth - 1) && Perfect(t.right, depth - 1)
  }

  predicate LiteralsIn(t: Tree, lo: nat, hi: nat)
  {
    match t
    case Leaf(n) => lo <= n <= hi
    case Node(_, l, r) => LiteralsIn(l, lo, hi) && LiteralsIn(r, lo, hi)
  }

  function Literals(t: Tree): nat
  {
    match t
    case Leaf(_) => 1
    case Node(_, l, r) => Literals(l) + Literals(r)
  }

  function Operators(t: Tree): nat
  {
    match t
    case Leaf(_) => 0
    case Node(_, l, r) => Operators(l) + 1 + Operators(r)
  }

  function Pow2(d: nat): nat
  {
    if d == 0 then 1 else 2 * Pow2(d - 1)
  }

  // ---------------------------------------------------------------------------
  // gen_final

  /** What a call of gen_final leaves: the text it appended to buf, the value it returned, the next rand() index. */
  datatype Gen = Gen(text: string, value: U32, next: nat)

  /**
   * gen_final(level) with the k-th rand() call answering rand(k). Below
   * level 4 a literal in 1..100; otherwise "(", the left operand, " op ",
   * the right operand and ")". A flag from an operand is returned at once,
   * leaving the text unfinished; a division by zero returns the flag after
   * the ")".
   */
  function GenFinal(level: nat, rand: int -> int, k: nat): (g: Gen)
    decreases if level > MaxLevel then 0 else MaxLevel + 1 - level, 1, k
  {
    if level > MaxLevel then
      var num := rand(k) % 100 + 1;
      Gen(Literal(num), num, k + 1)
    else GenOperator(level, rand, k)
  }

  /** gen_final above the deepest level: the left operand, then the rest unless it returned the flag. */
  function GenOperator(level: nat, rand: int -> int, k: nat): (g: Gen)
    requires level <= MaxLevel
    decreases MaxLevel + 1 - level, 0, k
  {
    var left := GenFinal(level + 1, rand, k);
    if left.value == Flag then Gen("(" + left.text, Flag, left.next)
    else Join(left, OpOf(rand(left.next)), GenFinal(level + 1, rand, left.next + 1))
  }

  /**
   * The rest of gen_final once the left operand came back without the
   * flag: the operator, the right operand, and the flag when the right
   * operand returned it or was a zero divisor.
   */
  function Join(left: Gen, op: Op, right: Gen): (g: Gen)
    ensures g.next == right.next
  {
    var text := "(" + left.text + " " + [Symbol(op)] + " " + right.text;
    if right.value == Flag then Gen(text, Flag, right.next)
    else if op == Quot && right.value == 0 then Gen(text + ")", Flag, right.next)
    else Gen(text + ")", Compute(op, left.value, right.value).value, right.next)
  }

  /** The "%u" text of a literal of 1..100, digit by digit. */
  function Literal(n: nat): (s: string)
    requires 1 <= n <= 100
  {
    if n < 10 then [DigitChar(n)] else if n < 100 then [DigitChar(n / 10), DigitChar(n % 10)] else "100"
  }

  /** It is the decimal numeral of the literal. */
  lemma LiteralText(n: nat)
    requires 1 <= n <= 100
    ensures Literal(n) == Text(n, 10)
  {
    if 10 <= n < 100 {
      assert Text(n / 10, 10) == [DigitChar(n / 10)];
    } else if n == 100 {
      assert Text(10, 10) == [DigitChar(1), DigitChar(0)];
    }
  }

  /** An expression together with the next rand() index. */
  datatype Choice = Choice(tree: Tree, next: nat)

  /** The expression the rand() answers from index k describe at a level, read as if no flag ever cut it short. */
  function Chosen(level: nat, rand: int -> int, k: nat): (c: Choice)
    decreases if level > MaxLevel then 0 else MaxLevel + 1 - level, 1, k
  {
    if level > MaxLevel then Choice(Leaf(rand(k) % 100 + 1), k + 1) else ChosenOperator(level, rand, k)
  }

  function ChosenOperator(level: nat, rand: int -> int, k: nat): (c: Choice)
    requires level <= MaxLevel
    decreases MaxLevel + 1 - level, 0, k
  {
    var l := Chosen(level + 1, rand, k);
    var r := Chosen(level + 1, rand, l.next + 1);
    Choice(Node(OpOf(rand(l.next)), l.tree, r.tree), r.next)
  }

  /**
   * gen_final returns something other than the flag exactly when the
   * chosen expression and all its subexpressions have a value other than
   * the flag, and then it has written that expression and returned its
   * value.
   */
  ghost predicate Means(level: nat, rand: int -> int, k: nat)
  {
    Stands(GenFinal(level, rand, k), Chosen(level, rand, k))
  }

  ghost predicate Stands(g: Gen, c: Choice)
  {
    (g.value != Flag <==> FlagFree(c.tree)) &&
    (g.value != Flag ==> g.text == Print(c.tree) && g.next == c.next && Value(c.tree) == Some(g.value))
  }

  /** What gen_final writes and returns is the chosen expression and its value, unless it returns the flag. */
  lemma {:induction false} GenMeans(level: nat, rand: int -> int, k: nat)
    ensures Means(level, rand, k)
    decreases if level > MaxLevel then 0 else MaxLevel + 1 - level, 2
  {
    if level > MaxLevel {
      MeansLeaf(level, rand, k);
    } else {
      MeansNode(level, rand, k);
    }
  }

  lemma MeansLeaf(level: nat, rand: int -> int, k: nat)
    requires level > MaxLevel
    ensures Means(level, rand, k)
  {
    LiteralText(rand(k) % 100 + 1);
  }

  /** Below an operator, both operands mean what they should, so the operator does. */
  lemma {:induction false} MeansNode(level: nat, rand: int -> int, k: nat)
    requires level <= MaxLevel
    ensures Means(level, rand, k)
    decreases MaxLevel + 1 - level, 1
  {
    GenMeans(level + 1, rand, k);
    if GenFinal(level + 1, rand, k).value == Flag {
      MeansFlagged(level, rand, k);
    } else {
      MeansRight(level, rand, k);
    }
  }

  /** When the left operand went through, the right operand means what it should as well. */
  lemma {:induction false} MeansRight(level: nat, rand: int -> int, k: nat)
    requires level <= MaxLevel
    requires Means(level + 1, rand, k) && GenFinal(level + 1, rand, k).value != Flag
    ensures Means(level, rand, k)
    decreases MaxLevel + 1 - level, 0
  {
    GenMeans(level + 1, rand, GenFinal(level + 1, rand, k).next + 1);
    MeansJoined(level, rand, k);
  }

  lemma MeansFlagged(level: nat, rand: int -> int, k: nat)
    requires level <= MaxLevel
    requires Means(level + 1, rand, k) && GenFinal(level + 1, rand, k).value == Flag
    ensures Means(level, rand, k)
  {
    var l := Chosen(level + 1, rand, k);
    GenUnfold(level, rand, k);
    ChosenUnfold(level, rand, k);
    FlaggedStands(GenFinal(level + 1, rand, k), l, OpOf(rand(l.next)), Chosen(level + 1, rand, l.next + 1));
  }

  lemma MeansJoined(level: nat, rand: int -> int, k: nat)
    requires level <= MaxLevel
    requires Means(level + 1, rand, k) && GenFinal(level + 1, rand, k).value != Flag
    requires Means(level + 1, rand, GenFinal(level + 1, rand, k).next + 1)
    ensures Means(level, rand, k)
  {
    var left, l := GenFinal(level + 1, rand, k), Chosen(level + 1, rand, k);
    var right, r := GenFinal(level + 1, rand, left.next + 1), Chosen(level + 1, rand, left.next + 1);
    var op := OpOf(rand(left.next));
    GenUnfold(level, rand, k);
    ChosenUnfold(level, rand, k);
    assert Chosen(level, rand, k) == Choice(Node(op, l.tree, r.tree), r.next);
    if right.value != Flag && !(op == Quot && right.value == 0) {
      assert Join(left, op, right).text == Print(Node(op, l.tree, r.tree));
    }
  }

  lemma GenUnfold(level: nat, rand: int -> int, k: nat)
    requires level <= MaxLevel
    ensures var left := GenFinal(level + 1, rand, k);
      GenFinal(level, rand, k) ==
        if left.value == Flag then Gen("(" + left.text, Flag, left.next)
        else Join(left, OpOf(rand(left.next)), GenFinal(level + 1, rand, left.next + 1))
  {
  }

  lemma ChosenUnfold(level: nat, rand: int -> int, k: nat)
    requires level <= MaxLevel
    ensures var l := Chosen(level + 1, rand, k); var r := Chosen(level + 1, rand, l.next + 1);
      Chosen(level, rand, k) == Choice(Node(OpOf(rand(l.next)), l.tree, r.tree), r.next)
  {
  }

  /** An operand that returned the flag makes the operator return it, and its expression is not flag-free. */
  lemma FlaggedStands(left: Gen, l: Choice, op: Op, r: Choice)
    requires left.value == Flag && Stands(left, l)
    ensures Stands(Gen("(" + left.text, Flag, left.next), Choice(Node(op, l.tree, r.tree), r.next))
  {
  }

  /** The choices describe a full tree with literals of 1..100, as deep as the levels left. */
  ghost predicate Shaped(level: nat, rand: int -> int, k: nat)
    requires level <= MaxLevel + 1
  {
    Perfect(Chosen(level, rand, k).tree, MaxLevel + 1 - level) && LiteralsIn(Chosen(level, rand, k).tree, 1, 100)
  }

  /** From level 0 the choices always describe a full tree of depth 5 whose literals are 1..100. */
  lemma {:induction false} ChosenShape(level: nat, rand: int -> int, k: nat)
    requires level <= MaxLevel + 1
    ensures Shaped(level, rand, k)
    decreases MaxLevel + 1 - level
  {
    if level <= MaxLevel {
      var l := Chosen(level + 1, rand, k);
      ChosenShape(level + 1, rand, k);
      ChosenShape(level + 1, rand, l.next + 1);
      ShapedNode(level, rand, k);
    } else {
      ShapedLeaf(level, rand, k);
    }
  }

  lemma ShapedLeaf(level: nat, rand: int -> int, k: nat)
    requires level == MaxLevel + 1
    ensures Shaped(level, rand, k)
  {
  }

  lemma ShapedNode(level: nat, rand: int -> int, k: nat)
    requires level <= MaxLevel
    requires Shaped(level + 1, rand, k)
    requires Shaped(level + 1, rand, Chosen(level + 1, rand, k).next + 1)
    ensures Shaped(level, rand, k)
  {
  }

  /** A full tree of depth d has 2^d literals, one operator fewer, and 4 * 2^d - 3 tokens. */
  lemma {:induction false} PerfectCounts(t: Tree, d: nat)
    requires Perfect(t, d)
    ensures Literals(t) == Pow2(d) && Operators(t) == Pow2(d) - 1 && Size(t) == 4 * Pow2(d) - 3
    decreases t
  {
    if d > 0 {
      PerfectCounts(t.left, d - 1);
      PerfectCounts(t.right, d - 1);
    }
  }

  /** gen_final(0) describes 32 literals and 31 operators, 125 tokens, which fit expr.c's token array. */
  lemma FullTree(rand: int -> int, k: nat)
    ensures var t := Chosen(0, rand, k).tree;
      Perfect(t, 5) && Literals(t) == 32 && Operators(t) == 31 && Size(t) == 125 <= Lexer.MaxTokens
  {
    ChosenShape(0, rand, k);
    PerfectCounts(Chosen(0, rand, k).tree, 5);
    assert Pow2(5) == 32;
  }

  /** A literal in 1..100 is at most three characters. */
  lemma ShortLiteral(n: nat)
    requires 1 <= n <= 100
    ensures |Text(n, 10)| <= 3
  {
    if n >= 10 {
      assert n / 10 < 100;
      if n / 10 >= 10 {
        assert n / 10 / 10 < 10;
      }
    }
  }

  /** A full tree of depth d with literals of 1..100 prints in at most 8 * 2^d - 5 characters. */
  lemma {:induction false} PrintLength(t: Tree, d: nat)
    requires Perfect(t, d) && LiteralsIn(t, 1, 100)
    ensures |Print(t)| <= 8 * Pow2(d) - 5
    decreases t
  {
    if d == 0 {
      ShortLiteral(t.n);
    } else {
      PrintLength(t.left, d - 1);
      PrintLength(t.right, d - 1);
    }
  }

  /** So what gen_final(0) writes fits buf's 65536 bytes with room to spare. */
  lemma TextFits(rand: int -> int, k: nat)
    ensures |Print(Chosen(0, rand, k).tree)| <= 251 < 65536
  {
    ChosenShape(0, rand, k);
    PrintLength(Chosen(0, rand, k).tree, 5);
  }

  /**
   * The flag is an ordinary uint32 as well: "(1 - 2)", which divides by
   * nothing, has the flag's value, so gen_final discards it like a division
   * by zero.
   */
  lemma FlagCollision(rand: int -> int, k: nat)
    requires rand(k) % 100 == 0 && rand(k + 1) % 4 == 1 && rand(k + 2) % 100 == 1
    ensures Chosen(MaxLevel, rand, k).tree == Node(Sub, Leaf(1), Leaf(2))
    ensures Value(Node(Sub, Leaf(1), Leaf(2))) == Some(Flag)
    ensures GenFinal(MaxLevel, rand, k).value == Flag
  {
    ChosenUnfold(MaxLevel, rand, k);
    assert Chosen(MaxLevel + 1, rand, k) == Choice(Leaf(1), k + 1);
    assert Chosen(MaxLevel + 1, rand, k + 2) == Choice(Leaf(2), k + 3);
    GenMeans(MaxLevel, rand, k);
  }

  /** The paren count of a text: opening minus closing parentheses. */
  function Net(s: string): int
  {
    if s == [] then 0 else Net(s[..|s| - 1]) + (if s[|s| - 1] == '(' then 1 else if s[|s| - 1] == ')' then -1 else 0)
  }

  lemma {:induction false} NetAppend(a: string, b: string)
    ensures Net(a + b) == Net(a) + Net(b)
    decreases |b|
  {
    if b == [] {
      assert a + b == a;
    } else {
      assert (a + b)[..|a + b| - 1] == a + b[..|b| - 1];
      NetAppend(a, b[..|b| - 1]);
    }
  }

  /** A literal has no parentheses. */
  lemma NetOfLiteral(n: nat)
    ensures Net(Text(n, 10)) == 0
  {
    DecimalText(n);
    NetOfDigits(Text(n, 10));
  }

  lemma {:induction false} NetOfDigits(s: string)
    requires forall i :: 0 <= i < |s| ==> IsDigit(s[i])
    ensures Net(s) == 0
    decreases |s|
  {
    if s != [] {
      NetOfDigits(s[..|s| - 1]);
    }
  }

  /** A text never closes more than it opens, and is balanced when its call did not return the flag. */
  ghost predicate Nested(g: Gen)
  {
    Net(g.text) >= 0 && (g.value != Flag ==> Net(g.text) == 0)
  }

  /** Nested, for what gen_final returns; stated through a quantifier so that the text is examined only where a proof names it. */
  ghost predicate Parens(level: nat, rand: int -> int, k: nat)
  {
    forall g :: g == GenFinal(level, rand, k) ==> Nested(g)
  }

  /** Whatever gen_final returns, its text is nested, and balanced unless it returned the flag. */
  lemma {:induction false} GenParens(level: nat, rand: int -> int, k: nat)
    ensures Parens(level, rand, k)
    decreases if level > MaxLevel then 0 else MaxLevel + 1 - level
  {
    ParensOfLiteral(level, rand, k);
    if level <= MaxLevel {
      GenParens(level + 1, rand, k);
      if GenFinal(level + 1, rand, k).value != Flag {
        GenParens(level + 1, rand, GenFinal(level + 1, rand, k).next + 1);
      }
      ParensOfOperands(level, rand, k);
    }
  }

  /** A literal has no parentheses. */
  lemma ParensOfLiteral(level: nat, rand: int -> int, k: nat)
    ensures level > MaxLevel ==> Parens(level, rand, k)
  {
    if level > MaxLevel {
      LiteralText(rand(k) % 100 + 1);
      NetOfLiteral(rand(k) % 100 + 1);
    }
  }

  /** gen_final's text is nested when its operands' texts are. */
  lemma ParensOfOperands(level: nat, rand: int -> int, k: nat)
    ensures var left := GenFinal(level + 1, rand, k);
      level <= MaxLevel && Parens(level + 1, rand, k)
      && (left.value != Flag ==> Parens(level + 1, rand, left.next + 1))
      ==> Parens(level, rand, k)
  {
    if level <= MaxLevel {
      var left := GenFinal(level + 1, rand, k);
      GenUnfold(level, rand, k);
      var g := GenFinal(level, rand, k);
      if Nested(left) && left.value == Flag {
        OpenNet(left);
        assert g == Gen("(" + left.text, Flag, left.next);
      } else if Nested(left) && Nested(GenFinal(level + 1, rand, left.next + 1)) {
        var right := GenFinal(level + 1, rand, left.next + 1);
        JoinNet(left, OpOf(rand(left.next)), right);
        assert g == Join(left, OpOf(rand(left.next)), right);
      }
    }
  }

  /** A flag from the left operand leaves one more parenthesis open than the operand did. */
  lemma OpenNet(left: Gen)
    requires Nested(left) && left.value == Flag
    ensures Nested(Gen("(" + left.text, Flag, left.next)) && Net("(" + left.text) > 0
  {
    NetAppend("(", left.text);
  }

  /** After a balanced left operand, the text is balanced exactly when the right operand came back without the flag. */
  lemma JoinNet(left: Gen, op: Op, right: Gen)
    requires left.value != Flag && Nested(left) && Nested(right)
    ensures Nested(Join(left, op, right)) && (Net(Join(left, op, right).text) == 0 <==> right.value != Flag)
  {
    var text := "(" + left.text + " " + [Symbol(op)] + " " + right.text;
    NetAppend("(", left.text);
    NetAppend("(" + left.text, " ");
    NetAppend("(" + left.text + " ", [Symbol(op)]);
    NetAppend("(" + left.text + " " + [Symbol(op)], " ");
    NetAppend("(" + left.text + " " + [Symbol(op)] + " ", right.text);
    NetAppend(text, ")");
  }

  /**
   * The text gen_final leaves is balanced exactly when it ran to its ")";
   * when an operand returned the flag it is left with a parenthesis open.
   */
  lemma UnfinishedText(level: nat, rand: int -> int, k: nat)
    requires level <= MaxLevel
    ensures var g := GenFinal(level, rand, k);
      var left := GenFinal(level + 1, rand, k);
      var right := GenFinal(level + 1, rand, left.next + 1);
      Net(g.text) >= 0 && (Net(g.text) == 0 <==> left.value != Flag && right.value != Flag)
  {
    var left := GenFinal(level + 1, rand, k);
    GenParens(level + 1, rand, k);
    GenUnfold(level, rand, k);
    var g := GenFinal(level, rand, k);
    if left.value == Flag {
      OpenNet(left);
      assert g.text == "(" + left.text;
    } else {
      var right := GenFinal(level + 1, rand, left.next + 1);
      GenParens(level + 1, rand, left.next + 1);
      JoinNet(left, OpOf(rand(left.next)), right);
      assert g == Join(left, OpOf(rand(left.next)), right);
    }
  }

  // ---------------------------------------------------------------------------
  // The tokens of a printed expression

  /** The number of tokens of the expression. */
  function Size(t: Tree): (n: nat)
    ensures n >= 1
  {
    match t
    case Leaf(_) => 1
    case Node(_, l, r) => Size(l) + Size(r) + 3
  }

  function OpKind(op: Op): Lexer.Kind
  {
    match op
    case Add => Lexer.Plus
    case Sub => Lexer.Minus
    case Times => Lexer.Mul
    case Quot => Lexer.Div
  }

  /** The tokens make_token reads from Print(t). */
  function Tokens(t: Tree): (ts: seq<Lexer.Token>)
    ensures |ts| == Size(t)
  {
    match t
    case Leaf(n) => [Lexer.Token(Lexer.Num, Text(n, 10))]
    case Node(op, l, r) =>
      [Lexer.Token(Lexer.LParen, "(")] + Tokens(l) + [Lexer.Token(OpKind(op), [Symbol(op)])]
      + Tokens(r) + [Lexer.Token(Lexer.RParen, ")")]
  }

  // ---------------------------------------------------------------------------
  // main

  /**
   * The body of main's for loop with its while (1) cut off after `attempts`
   * calls of gen_final(0): the first call that does not return the flag,
   * else the last call.
   */
  function Retry(rand: int -> int, k: nat, attempts: nat): (g: Gen)
    requires attempts >= 1
    decreases attempts
  {
    var first := GenFinal(0, rand, k);
    if first.value != Flag || attempts == 1 then first else Retry(rand, first.next, attempts - 1)
  }

  /** The cases main prints for `loop` iterations, each retried at most `attempts` times; it stops at a case whose retries all failed. */
  function Cases(rand: int -> int, k: nat, loop: int, attempts: nat): (gs: seq<Gen>)
    requires attempts >= 1
    decreases loop
  {
    if loop <= 0 then []
    else
      var g := Retry(rand, k, attempts);
      if g.value == Flag then [] else [g] + Cases(rand, g.next, loop - 1, attempts)
  }

  /** printf("%u %s\n", result, buf). */
  function Line(g: Gen): string
  {
    Text(g.value, 10) + " " + g.text + "\n"
  }

  function Lines(gs: seq<Gen>): (ls: seq<string>)
  {
    seq(|gs|, i requires 0 <= i < |gs| => Line(gs[i]))
  }

  /** The answer of the k-th call of rand(). */
  function Draw(rand: int -> int, k: nat): int
  {
    rand(k)
  }

  lemma Regrouped<T>(b: seq<T>, x: seq<T>, y: seq<T>)
    ensures b + x + y == b + (x + y)
  {
  }

  lemma RegroupedSix<T>(b: seq<T>, x1: seq<T>, x2: seq<T>, x3: seq<T>, x4: seq<T>, x5: seq<T>, x6: seq<T>)
    ensures b + x1 + x2 + x3 + x4 + x5 + x6 == b + (x1 + x2 + x3 + x4 + x5 + x6)
  {
  }

  /** The state of gen-expr's main: the buffer, the number of rand() calls so far, and the lines printed. */
  class Generator {
    /** The k-th call of rand() answers rand(k). */
    const rand: int -> int
    var buf: string
    var calls: nat
    var lines: seq<string>

    constructor (rand: int -> int)
      ensures this.rand == rand && buf == [] && calls == 0 && lines == []
    {
      this.rand := rand;
      buf := [];
      calls := 0;
      lines := [];
    }

    /** gen_final(level): appends to buf what GenFinal writes and returns its value. */
    method Final(level: nat) returns (value: U32)
      modifies this
      ensures var g := GenFinal(level, rand, old(calls));
        buf == old(buf) + g.text && value == g.value && calls == g.next && lines == old(lines)
      decreases if level > MaxLevel then 0 else MaxLevel + 1 - level, 2
    {
      if level > MaxLevel {
        var num := Draw(rand, calls) % 100 + 1;
        calls := calls + 1;
        buf := buf + Literal(num);
        value := num;
      } else {
        value := Operator(level);
      }
    }

    /** gen_final(level) above the deepest level: '(', the left operand, and the rest unless the left operand returned the flag. */
    method Operator(level: nat) returns (value: U32)
      requires level <= MaxLevel
      modifies this
      ensures var g := GenOperator(level, rand, old(calls));
        buf == old(buf) + g.text && value == g.value && calls == g.next && lines == old(lines)
      decreases MaxLevel + 1 - level, 1
    {
      ghost var b, k := buf, calls;
      buf := buf + "(";
      var val1 := Final(level + 1);
      ghost var left := GenFinal(level + 1, rand, k);
      if val1 == Flag {
        Regrouped(b, "(", left.text);
        value := Flag;
        return;
      }
      value := Rest(level, b, left, val1);
    }

    /**
     * gen_final(level) after a left operand that came back without the
     * flag: the operator, the right operand, and the ')' unless the right
     * operand returned the flag.
     */
    method Rest(level: nat, ghost b: string, ghost left: Gen, val1: U32) returns (value: U32)
      requires level <= MaxLevel && val1 == left.value != Flag
      requires buf == b + "(" + left.text && calls == left.next
      modifies this
      ensures var g := Join(left, OpOf(rand(left.next)), GenFinal(level + 1, rand, left.next + 1));
        buf == b + g.text && value == g.value && calls == g.next && lines == old(lines)
      decreases MaxLevel + 1 - level, 0
    {
      var op := OpOf(Draw(rand, calls));
      buf, calls := buf + " " + [Symbol(op)] + " ", calls + 1;
      var val2 := Final(level + 1);
      ghost var right := GenFinal(level + 1, rand, left.next + 1);
      ghost var text := "(" + left.text + " " + [Symbol(op)] + " " + right.text;
      RegroupedSix(b, "(", left.text, " ", [Symbol(op)], " ", right.text);
      if val2 == Flag {
        value := Flag;
      } else {
        buf := buf + ")";
        Regrouped(b, text, ")");
        if op == Quot && val2 == 0 {
          value := Flag;
        } else {
          value := Compute(op, val1, val2).value;
        }
      }
    }

    /** One case of main: clear buf and call gen_final(0) until it does not return the flag, at most `attempts` times. */
    method NextCase(attempts: nat) returns (result: U32)
      requires attempts >= 1
      modifies this
      ensures var g := Retry(rand, old(calls), attempts);
        buf == g.text && result == g.value && calls == g.next && lines == old(lines)
    {
      buf := [];
      result := Final(0);
      var tries := 1;
      while result == Flag && tries < attempts
        invariant 1 <= tries <= attempts && lines == old(lines)
        invariant Retry(rand, old(calls), attempts)
          == if result != Flag || tries == attempts then Gen(buf, result, calls) else Retry(rand, calls, attempts - tries)
        decreases attempts - tries
      {
        buf := [];
        result := Final(0);
        tries := tries + 1;
      }
    }

    /**
     * main: `loop` cases, each printed as its value and its text; it stops
     * early only where a case ran out of attempts, where main would retry
     * for ever.
     */
    method Run(loop: int, attempts: nat) returns (complete: bool)
      requires attempts >= 1
      modifies this
      ensures lines == old(lines) + Lines(Cases(rand, old(calls), loop, attempts))
      ensures complete <==> |Cases(rand, old(calls), loop, attempts)| == if loop < 0 then 0 else loop
    {
      ghost var done: seq<Gen> := [];
      var i := 0;
      complete := true;
      while i < loop
        invariant 0 <= i && (loop >= 0 ==> i <= loop) && |done| == i
        invariant lines == old(lines) + Lines(done)
        invariant Cases(rand, old(calls), loop, attempts) == done + Cases(rand, calls, loop - i, attempts)
        decreases loop - i
      {
        var result := NextCase(attempts);
        if result == Flag {
          complete := false;
          return;
        }
        lines := lines + [Line(Gen(buf, result, calls))];
        done := done + [Gen(buf, result, calls)];
        i := i + 1;
      }
    }
  }
}
