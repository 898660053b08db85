/**
 * The tokenizer of the debugger's expressions (the rules table and make_token
 * in expr.c). At each position the rules are tried in table order and the
 * first one whose regular expression matches there wins, taking its longest
 * match; blanks are dropped, and a '*' is a dereference when nothing or an
 * operator or '(' precedes it, a multiplication after an operand or ')'.
 */
module Lexer {
  import opened Numerals
  import opened Wrappers

  /** The capacity of the token array. */
  const MaxTokens: nat := 1024

  datatype Kind = Plus | Eq | Minus | Mul | Div | LParen | RParen | Neq | And
                | Reg | Hex | Num | Deref

  /** A token and the text it was read from. */
  datatype Token = Token(kind: Kind, text: string)

  /** A rule of the table: blanks, or the regular expression of a token kind. */
  datatype Rule = Blank | Pattern(kind: Kind)

  /** The rules in the order they are tried. */
  const Rules: seq<Rule> :=
    [Blank, Pattern(Plus), Pattern(Eq), Pattern(Minus), Pattern(Mul), Pattern(Div),
     Pattern(LParen), Pattern(RParen), Pattern(Neq), Pattern(And), Pattern(Reg),
     Pattern(Hex), Pattern(Num)]

  predicate IsAlnum(c: char)
  {
    IsDigit(c) || 'a' <= c <= 'z' || 'A' <= c <= 'Z'
  }

  datatype CharClass = Blanks | Digits | HexDigits | Alnums

  predicate InClass(c: char, cls: CharClass)
  {
    match cls
    case Blanks => c == ' '
    case Digits => IsDigit(c)
    case HexDigits => IsHexDigit(c)
    case Alnums => IsAlnum(c)
  }

  /** The length of the longest prefix of s made of characters of the class. */
  function Run(s: string, cls: CharClass): (n: nat)
    ensures n <= |s|
    ensures forall i :: 0 <= i < n ==> InClass(s[i], cls)
    ensures n < |s| ==> !InClass(s[n], cls)
  {
    if s != [] && InClass(s[0], cls) then 1 + Run(s[1..], cls) else 0
  }

  function Literal(s: string, lit: string): nat
  {
    if |lit| <= |s| && s[..|lit|] == lit then |lit| else 0
  }

  /** The length of the longest match of the rule at the start of s; 0 when it does not match there. */
  function MatchLen(rule: Rule, s: string): (n: nat)
    ensures n <= |s|
  {
    match rule
    case Blank => Run(s, Blanks)
    case Pattern(k) =>
      match k
      case Plus => Literal(s, "+")
      case Eq => Literal(s, "==")
      case Minus => Literal(s, "-")
      case Mul => Literal(s, "*")
      case Div => Literal(s, "/")
      case LParen => Literal(s, "(")
      case RParen => Literal(s, ")")
      case Neq => Literal(s, "!=")
      case And => Literal(s, "&&")
      case Reg => if |s| >= 2 && s[0] == '$' && IsAlnum(s[1]) then 1 + Run(s[1..], Alnums) else 0
      case Hex => if |s| >= 3 && s[..2] == "0x" && IsHexDigit(s[2]) then 2 + Run(s[2..], HexDigits) else 0
      case Num => Run(s, Digits)
      case Deref => 0
  }

  /** The first rule from index i on that matches at the start of s; |Rules| when none does. */
  function FirstRule(s: string, i: nat): (r: nat)
    requires i <= |Rules|
    ensures i <= r <= |Rules|
    ensures r < |Rules| ==> MatchLen(Rules[r], s) > 0
    decreases |Rules| - i
  {
    if i == |Rules| then i
    else if MatchLen(Rules[i], s) > 0 then i
    else FirstRule(s, i + 1)
  }

  /** Does the token end an operand, so that a '*' after it multiplies? */
  predicate EndsOperand(k: Kind)
  {
    k == Num || k == Hex || k == Reg || k == RParen
  }

  /** The kind a '*' gets after the tokens so far. */
  function StarKind(acc: seq<Token>): Kind
  {
    if |acc| == 0 || !EndsOperand(acc[|acc| - 1].kind) then Deref else Mul
  }

  /**
   * The token list after a rule has matched `text`: blanks add nothing, a
   * pattern adds its token, or None when the token array is full. With
   * boundStars false the '*' rule appends without checking the capacity, as
   * make_token is written; with it true every token is checked.
   */
  function Push(rule: Rule, text: string, acc: seq<Token>, boundStars: bool): (r: Option<seq<Token>>)
    ensures rule.Blank? ==> r == Some(acc)
    ensures rule.Pattern? && r.Some? ==> |r.value| == |acc| + 1 && r.value[..|acc|] == acc
    ensures rule.Pattern? && r.Some? ==> r.value[|acc|].text == text
    ensures rule.Pattern? && (rule.kind != Mul || boundStars) ==> (r.None? <==> |acc| >= MaxTokens)
    ensures rule.Pattern? && rule.kind == Mul && !boundStars ==> r.Some?
  {
    match rule
    case Blank => Some(acc)
    case Pattern(k) =>
      if (k != Mul || boundStars) && |acc| >= MaxTokens then None
      else Some(acc + [Token(if k == Mul then StarKind(acc) else k, text)])
  }

  /** The tokens of s appended to acc, or None when no rule matches somewhere or the token array overflows. */
  function LexWith(s: string, acc: seq<Token>, boundStars: bool): Option<seq<Token>>
    decreases |s|
  {
    if s == [] then Some(acc)
    else
      var i := FirstRule(s, 0);
      if i == |Rules| then None
      else
        var n := MatchLen(Rules[i], s);
        var next := Push(Rules[i], s[..n], acc, boundStars);
        if next.None? then None else LexWith(s[n..], next.value, boundStars)
  }

  /** No rule matches: the scan fails. */
  lemma LexStuck(s: string, acc: seq<Token>)
    ensures s != [] && FirstRule(s, 0) == |Rules| ==> LexWith(s, acc, true) == None
  {
  }

  /** A blank run is skipped. */
  lemma LexSkipsBlank(s: string, acc: seq<Token>, i: nat)
    ensures s != [] && i == FirstRule(s, 0) && i < |Rules| && Rules[i].Blank? ==>
      LexWith(s, acc, true) == LexWith(s[MatchLen(Rules[i], s)..], acc, true)
  {
  }

  /** A token when the array is full: the scan fails. */
  lemma LexFull(s: string, acc: seq<Token>, i: nat)
    ensures s != [] && i == FirstRule(s, 0) && i < |Rules| && Rules[i].Pattern? && |acc| >= MaxTokens ==>
      LexWith(s, acc, true) == None
  {
  }

  /** A token while there is room: it is appended, a '*' with the kind its predecessor gives it. */
  lemma LexPattern(s: string, acc: seq<Token>, i: nat, kind: Kind)
    ensures s != [] && i == FirstRule(s, 0) && i < |Rules| && Rules[i].Pattern? && |acc| < MaxTokens
            && kind == (if Rules[i].kind == Mul then StarKind(acc) else Rules[i].kind) ==>
      LexWith(s, acc, true) == LexWith(s[MatchLen(Rules[i], s)..], acc + [Token(kind, s[..MatchLen(Rules[i], s)])], true)
  {
  }

  /** make_token as written. */
  function LexAsWritten(e: string): Option<seq<Token>>
  {
    LexWith(e, [], false)
  }

  /** make_token with the capacity checked for every token. */
  function Lex(e: string): Option<seq<Token>>
  {
    LexWith(e, [], true)
  }

  /**
   * make_token: the scan over the text, trying the rules in order at each
   * position. The token array is the returned sequence.
   */
  method MakeToken(e: string) returns (ok: bool, tokens: seq<Token>)
    ensures ok <==> Lex(e).Some?
    ensures ok ==> tokens == Lex(e).value
  {
    tokens := [];
    var position := 0;
    assert e[position..] == e;
    while position < |e|
      invariant 0 <= position <= |e|
      invariant LexWith(e[position..], tokens, true) == Lex(e)
      decreases |e| - position
    {
      var rest := e[position..];
      var i := FindRule(rest);
      if i == |Rules| {
        LexStuck(rest, tokens);
        return false, tokens;
      }
      var rule := Rules[i];
      var len := MatchLen(rule, rest);
      match rule {
        case Blank =>
          LexSkipsBlank(rest, tokens, i);
        case Pattern(k) =>
          if |tokens| >= MaxTokens {
            LexFull(rest, tokens, i);
            return false, tokens;
          }
          var kind := k;
          if k == Mul {
            var isDeref := |tokens| == 0 || !EndsOperand(tokens[|tokens| - 1].kind);
            kind := if isDeref then Deref else Mul;
          }
          LexPattern(rest, tokens, i, kind);
          tokens := tokens + [Token(kind, rest[..len])];
      }
      assert LexWith(rest[len..], tokens, true) == Lex(e);
      position := position + len;
      assert e[position..] == rest[len..];
    }
    return true, tokens;
  }

  /** The rule loop of make_token: the index of the first rule that matches at the start of s, or |Rules|. */
  method FindRule(s: string) returns (i: nat)
    ensures i == FirstRule(s, 0)
  {
    i := 0;
    while i < |Rules| && MatchLen(Rules[i], s) == 0
      invariant i <= |Rules|
      invariant FirstRule(s, i) == FirstRule(s, 0)
    {
      i := i + 1;
    }
  }

  /** The characters of s with the blanks taken out. */
  function RemoveBlanks(s: string): (r: string)
    ensures |r| <= |s|
  {
    if s == [] then [] else (if s[0] == ' ' then [] else [s[0]]) + RemoveBlanks(s[1..])
  }

  /** The texts of the tokens, one after another. */
  function Concat(ts: seq<Token>): string
  {
    if ts == [] then [] else Concat(ts[..|ts| - 1]) + ts[|ts| - 1].text
  }

  /** The text of a token is what the lexer read for it. */
  predicate TokenWellFormed(t: Token)
  {
    match t.kind
    case Num => |t.text| >= 1 && AllDigitsIn(t.text, 10)
    case Hex => |t.text| >= 3 && t.text[..2] == "0x" && AllDigitsIn(t.text[2..], 16)
    case Reg => |t.text| >= 2 && t.text[0] == '$'
    case _ => true
  }

  predicate WellFormed(ts: seq<Token>)
  {
    forall i {:trigger TokenWellFormed(ts[i])} :: 0 <= i < |ts| ==> TokenWellFormed(ts[i])
  }

  /** Every '*' is a dereference exactly when it is first or follows a token that does not end an operand. */
  predicate StarsResolved(ts: seq<Token>)
  {
    forall i :: 0 <= i < |ts| ==> StarResolvedAt(ts, i)
  }

  predicate StarResolvedAt(ts: seq<Token>, i: nat)
    requires i < |ts|
  {
    ts[i].kind == Mul || ts[i].kind == Deref ==>
      (ts[i].kind == Deref <==> i == 0 || !EndsOperand(ts[i - 1].kind))
  }

  lemma {:induction false} RemoveBlanksAppend(a: string, b: string)
    ensures RemoveBlanks(a + b) == RemoveBlanks(a) + RemoveBlanks(b)
    decreases |a|
  {
    if a == [] {
      assert a + b == b;
    } else {
      assert (a + b)[0] == a[0];
      assert (a + b)[1..] == a[1..] + b;
      RemoveBlanksAppend(a[1..], b);
    }
  }

  lemma {:induction false} RemoveBlanksNone(a: string)
    requires forall i :: 0 <= i < |a| ==> a[i] != ' '
    ensures RemoveBlanks(a) == a
    decreases |a|
  {
    if a != [] {
      RemoveBlanksNone(a[1..]);
    }
  }

  lemma {:induction false} RemoveBlanksAll(a: string)
    requires forall i :: 0 <= i < |a| ==> a[i] == ' '
    ensures RemoveBlanks(a) == []
    decreases |a|
  {
    if a != [] {
      RemoveBlanksAll(a[1..]);
    }
  }

  lemma ConcatSnoc(ts: seq<Token>, t: Token)
    ensures Concat(ts + [t]) == Concat(ts) + t.text
  {
    assert (ts + [t])[..|ts|] == ts;
  }

  /** The text a pattern matches holds no blank. */
  lemma PatternNoBlank(k: Kind, s: string)
    requires MatchLen(Pattern(k), s) > 0
    ensures forall i :: 0 <= i < MatchLen(Pattern(k), s) ==> s[i] != ' '
  {
    var n := MatchLen(Pattern(k), s);
    if k == Reg {
      forall i | 0 <= i < n ensures s[i] != ' ' {
        if i > 0 {
          assert s[i] == s[1..][i - 1];
        }
      }
    } else if k == Hex {
      forall i | 0 <= i < n ensures s[i] != ' ' {
        if i > 1 {
          assert s[i] == s[2..][i - 2];
        } else {
          assert s[i] == s[..2][i];
        }
      }
    } else if k == Num {
    } else {
      forall i | 0 <= i < n ensures s[i] != ' ' {
        assert s[i] == s[..n][i];
      }
    }
  }

  /** The text a pattern matches is a well-formed token of its kind. */
  lemma PatternWellFormed(k: Kind, s: string)
    requires MatchLen(Pattern(k), s) > 0
    ensures TokenWellFormed(Token(k, s[..MatchLen(Pattern(k), s)]))
  {
    var n := MatchLen(Pattern(k), s);
    var text := s[..n];
    if k == Num {
      forall i | 0 <= i < |text| ensures IsHexDigit(text[i]) && DigitValue(text[i]) < 10 {
        assert InClass(s[i], Digits);
      }
    } else if k == Hex {
      var r := Run(s[2..], HexDigits);
      assert text[2..] == s[2..][..r];
      forall i | 0 <= i < |text[2..]| ensures IsHexDigit(text[2..][i]) && DigitValue(text[2..][i]) < 16 {
        assert InClass(s[2..][i], HexDigits);
      }
      assert text[..2] == s[..2];
    }
  }

  /** What a rule's match consists of: blanks for the blank rule, otherwise a well-formed token text with no blank. */
  lemma RuleFacts(rule: Rule, s: string)
    requires MatchLen(rule, s) > 0
    ensures rule.Blank? ==> forall i :: 0 <= i < MatchLen(rule, s) ==> s[i] == ' '
    ensures rule.Pattern? ==> forall i :: 0 <= i < MatchLen(rule, s) ==> s[i] != ' '
    ensures rule.Pattern? ==> TokenWellFormed(Token(rule.kind, s[..MatchLen(rule, s)]))
  {
    if rule.Pattern? {
      PatternNoBlank(rule.kind, s);
      PatternWellFormed(rule.kind, s);
    }
  }

  lemma PushSpells(rule: Rule, text: string, acc: seq<Token>, boundStars: bool)
    requires Push(rule, text, acc, boundStars).Some?
    requires rule.Blank? ==> forall i :: 0 <= i < |text| ==> text[i] == ' '
    requires rule.Pattern? ==> forall i :: 0 <= i < |text| ==> text[i] != ' '
    ensures Concat(Push(rule, text, acc, boundStars).value) == Concat(acc) + RemoveBlanks(text)
  {
    var next := Push(rule, text, acc, boundStars).value;
    if rule.Blank? {
      RemoveBlanksAll(text);
    } else {
      RemoveBlanksNone(text);
      assert next == acc + [next[|acc|]];
      ConcatSnoc(acc, next[|acc|]);
    }
  }

  lemma PushInvariants(rule: Rule, text: string, acc: seq<Token>, boundStars: bool)
    requires Push(rule, text, acc, boundStars).Some?
    requires WellFormed(acc) && StarsResolved(acc)
    requires rule.Pattern? ==> rule.kind != Deref && TokenWellFormed(Token(rule.kind, text))
    ensures var next := Push(rule, text, acc, boundStars).value;
      |acc| <= |next| && next[..|acc|] == acc && WellFormed(next) && StarsResolved(next)
      && (boundStars && |acc| <= MaxTokens ==> |next| <= MaxTokens)
  {
    var next := Push(rule, text, acc, boundStars).value;
    if rule.Pattern? {
      var t := next[|acc|];
      assert next == acc + [t];
      WellFormedSnoc(acc, t);
      StarsSnoc(acc, t);
    }
  }

  lemma WellFormedSnoc(acc: seq<Token>, t: Token)
    requires WellFormed(acc) && TokenWellFormed(t)
    ensures WellFormed(acc + [t])
  {
    var next := acc + [t];
    assert forall j :: 0 <= j < |acc| ==> next[j] == acc[j];
    assert next[|acc|] == t;
  }

  lemma StarsSnoc(acc: seq<Token>, t: Token)
    requires StarsResolved(acc)
    requires t.kind == Mul || t.kind == Deref ==> t.kind == StarKind(acc)
    ensures StarsResolved(acc + [t])
  {
    var next := acc + [t];
    forall j | 0 <= j < |next| ensures StarResolvedAt(next, j) {
      if j < |acc| {
        assert StarResolvedAt(acc, j);
        assert next[j] == acc[j];
        if j > 0 {
          assert next[j - 1] == acc[j - 1];
        }
      } else {
        assert next[j] == t;
        if j > 0 {
          assert next[j - 1] == acc[|acc| - 1];
        }
      }
    }
  }

  /** No rule produces a dereference directly: only the '*' rule does, after looking back. */
  lemma NoDerefRule(i: nat)
    requires i < |Rules|
    ensures Rules[i] != Pattern(Deref)
  {
  }

  /** One step of the scan: the first matching rule's token is pushed and the rest is scanned. */
  lemma LexUnfold(s: string, acc: seq<Token>, boundStars: bool)
    requires LexWith(s, acc, boundStars).Some? && s != []
    ensures FirstRule(s, 0) < |Rules|
    ensures var rule := Rules[FirstRule(s, 0)];
      var n := MatchLen(rule, s);
      Push(rule, s[..n], acc, boundStars).Some?
      && LexWith(s, acc, boundStars) == LexWith(s[n..], Push(rule, s[..n], acc, boundStars).value, boundStars)
  {
  }

  lemma AppendAssoc(a: string, b: string, c: string)
    ensures (a + b) + c == a + (b + c)
  {
  }

  lemma SplitBlanks(s: string, n: nat)
    requires n <= |s|
    ensures RemoveBlanks(s) == RemoveBlanks(s[..n]) + RemoveBlanks(s[n..])
  {
    assert s == s[..n] + s[n..];
    RemoveBlanksAppend(s[..n], s[n..]);
  }

  /** The token texts spell out the input with its blanks removed. */
  lemma {:induction false} LexSpellsInput(s: string, acc: seq<Token>, boundStars: bool)
    requires LexWith(s, acc, boundStars).Some?
    ensures Concat(LexWith(s, acc, boundStars).value) == Concat(acc) + RemoveBlanks(s)
    decreases |s|
  {
    if s != [] {
      LexUnfold(s, acc, boundStars);
      var rule := Rules[FirstRule(s, 0)];
      var n := MatchLen(rule, s);
      var next := Push(rule, s[..n], acc, boundStars).value;
      RuleFacts(rule, s);
      PushSpells(rule, s[..n], acc, boundStars);
      LexSpellsInput(s[n..], next, boundStars);
      SplitBlanks(s, n);
      calc {
        Concat(LexWith(s, acc, boundStars).value);
        Concat(LexWith(s[n..], next, boundStars).value);
        Concat(next) + RemoveBlanks(s[n..]);
        (Concat(acc) + RemoveBlanks(s[..n])) + RemoveBlanks(s[n..]);
        { AppendAssoc(Concat(acc), RemoveBlanks(s[..n]), RemoveBlanks(s[n..])); }
        Concat(acc) + (RemoveBlanks(s[..n]) + RemoveBlanks(s[n..]));
        Concat(acc) + RemoveBlanks(s);
      }
    }
  }

  /** Lexing keeps the tokens so far, and every token it adds is well formed and has its '*' resolved. */
  lemma {:induction false} LexInvariants(s: string, acc: seq<Token>, boundStars: bool)
    requires LexWith(s, acc, boundStars).Some?
    requires WellFormed(acc) && StarsResolved(acc)
    ensures var ts := LexWith(s, acc, boundStars).value;
      |acc| <= |ts| && ts[..|acc|] == acc && WellFormed(ts) && StarsResolved(ts)
    ensures boundStars && |acc| <= MaxTokens ==> |LexWith(s, acc, boundStars).value| <= MaxTokens
    decreases |s|
  {
    if s != [] {
      LexUnfold(s, acc, boundStars);
      var rule := Rules[FirstRule(s, 0)];
      var n := MatchLen(rule, s);
      var next := Push(rule, s[..n], acc, boundStars).value;
      RuleFacts(rule, s);
      NoDerefRule(FirstRule(s, 0));
      PushInvariants(rule, s[..n], acc, boundStars);
      LexInvariants(s[n..], next, boundStars);
      var ts := LexWith(s, acc, boundStars).value;
      assert ts[..|next|][..|acc|] == ts[..|acc|];
    }
  }

  /** The tokens of a text that lexes: they spell it without blanks, are well formed, resolve '*', fit the array. */
  lemma LexFacts(e: string)
    requires Lex(e).Some?
    ensures Concat(Lex(e).value) == RemoveBlanks(e)
    ensures WellFormed(Lex(e).value) && StarsResolved(Lex(e).value)
    ensures |Lex(e).value| <= MaxTokens
  {
    LexSpellsInput(e, [], true);
    LexInvariants(e, [], true);
  }

  /** Checking the capacity of '*' tokens changes nothing for a text whose tokens fit the array. */
  lemma {:induction false} BoundedStarsAgree(s: string, acc: seq<Token>)
    requires LexWith(s, acc, false).Some? && |LexWith(s, acc, false).value| <= MaxTokens
    ensures LexWith(s, acc, true) == LexWith(s, acc, false)
    decreases |s|
  {
    if s != [] {
      LexUnfold(s, acc, false);
      var rule := Rules[FirstRule(s, 0)];
      var n := MatchLen(rule, s);
      var next := Push(rule, s[..n], acc, false).value;
      LexInvariantsPlain(s[n..], next);
      assert Push(rule, s[..n], acc, true) == Push(rule, s[..n], acc, false);
      BoundedStarsAgree(s[n..], next);
    }
  }

  /** Lexing never drops tokens already read. */
  lemma {:induction false} LexInvariantsPlain(s: string, acc: seq<Token>)
    requires LexWith(s, acc, false).Some?
    ensures |acc| <= |LexWith(s, acc, false).value|
    decreases |s|
  {
    if s != [] {
      LexUnfold(s, acc, false);
      var rule := Rules[FirstRule(s, 0)];
      var n := MatchLen(rule, s);
      LexInvariantsPlain(s[n..], Push(rule, s[..n], acc, false).value);
    }
  }

  /** A text that lexes with every token checked lexes the same way as make_token is written. */
  lemma {:induction false} CheckedLexAgrees(s: string, acc: seq<Token>)
    requires LexWith(s, acc, true).Some?
    ensures LexWith(s, acc, false) == LexWith(s, acc, true)
    decreases |s|
  {
    if s != [] {
      LexUnfold(s, acc, true);
      var rule := Rules[FirstRule(s, 0)];
      var n := MatchLen(rule, s);
      assert Push(rule, s[..n], acc, true) == Push(rule, s[..n], acc, false);
      CheckedLexAgrees(s[n..], Push(rule, s[..n], acc, true).value);
    }
  }

  /** The first rule matching s is rule i when i matches and no earlier rule does. */
  lemma {:induction false} FirstRuleIs(s: string, k: nat, i: nat)
    requires k <= i < |Rules| && MatchLen(Rules[i], s) > 0
    requires forall j :: k <= j < i ==> MatchLen(Rules[j], s) == 0
    ensures FirstRule(s, k) == i
    decreases i - k
  {
    if k < i {
      FirstRuleIs(s, k + 1, i);
    }
  }

  /** "1+" repeated k times. */
  function Pairs(k: nat): string
  {
    if k == 0 then [] else "1+" + Pairs(k - 1)
  }

  /** The tokens of Pairs(k). */
  function PairTokens(k: nat): (ts: seq<Token>)
    ensures |ts| == 2 * k
  {
    if k == 0 then [] else [Token(Num, "1"), Token(Plus, "+")] + PairTokens(k - 1)
  }

  lemma LexDigitOne(x: string, acc: seq<Token>, boundStars: bool)
    requires |acc| < MaxTokens && |x| > 0 && x[0] == '+'
    ensures LexWith("1" + x, acc, boundStars) == LexWith(x, acc + [Token(Num, "1")], boundStars)
  {
    assert "1" + x == ['1'] + x;
    LexDigit('1', x, acc, boundStars);
  }

  lemma LexPlusSign(x: string, acc: seq<Token>, boundStars: bool)
    requires |acc| < MaxTokens
    ensures LexWith("+" + x, acc, boundStars) == LexWith(x, acc + [Token(Plus, "+")], boundStars)
  {
    var s := "+" + x;
    assert s[0] == '+';
    assert MatchLen(Rules[0], s) == 0;
    assert s[..1] == "+";
    FirstRuleIs(s, 0, 1);
    assert s[1..] == x;
  }

  lemma {:induction false} LexPairs(k: nat, rest: string, acc: seq<Token>, boundStars: bool)
    requires |acc| + 2 * k <= MaxTokens
    requires k > 0 ==> |rest| > 0
    ensures LexWith(Pairs(k) + rest, acc, boundStars) == LexWith(rest, acc + PairTokens(k), boundStars)
    decreases k
  {
    if k == 0 {
      assert Pairs(k) + rest == rest;
      assert acc + PairTokens(k) == acc;
    } else {
      var x := Pairs(k - 1) + rest;
      PairsSplit(k, rest);
      LexDigitOne("+" + x, acc, boundStars);
      LexPlusSign(x, acc + [Token(Num, "1")], boundStars);
      var acc' := acc + [Token(Num, "1")] + [Token(Plus, "+")];
      if k > 1 {
        LexPairs(k - 1, rest, acc', boundStars);
      } else {
        assert x == rest;
        assert acc' + PairTokens(k - 1) == acc';
      }
      PairTokensSplit(k, acc);
    }
  }

  lemma PairsSplit(k: nat, rest: string)
    requires k > 0
    ensures Pairs(k) + rest == "1" + ("+" + (Pairs(k - 1) + rest))
  {
  }

  lemma PairTokensSplit(k: nat, acc: seq<Token>)
    requires k > 0
    ensures acc + [Token(Num, "1")] + [Token(Plus, "+")] + PairTokens(k - 1) == acc + PairTokens(k)
  {
  }

  /** A '*' becomes a dereference or a multiplication by the token before it. */
  lemma LexStar(x: string, acc: seq<Token>, boundStars: bool)
    ensures LexWith("*" + x, acc, boundStars)
            == if boundStars && |acc| >= MaxTokens then None
               else LexWith(x, acc + [Token(StarKind(acc), "*")], boundStars)
  {
    var s := "*" + x;
    assert s[0] == '*';
    forall j | 0 <= j < 4 ensures MatchLen(Rules[j], s) == 0 {
      if j == 2 && |s| >= 2 {
        assert s[..2][0] == '*';
      }
    }
    assert s[..1] == "*";
    FirstRuleIs(s, 0, 4);
    assert s[1..] == x;
  }

  /** A one-digit number not followed by a letter or digit. */
  lemma LexDigit(d: char, x: string, acc: seq<Token>, boundStars: bool)
    requires IsDigit(d) && |acc| < MaxTokens
    requires x == [] || !IsAlnum(x[0])
    ensures LexWith([d] + x, acc, boundStars) == LexWith(x, acc + [Token(Num, [d])], boundStars)
  {
    var s := [d] + x;
    DigitRule(s);
    assert s[..1] == [d];
    assert s[1..] == x;
  }

  /** A one-digit number at the end of the text. */
  lemma LexLastDigit(d: char, acc: seq<Token>, boundStars: bool)
    requires IsDigit(d) && |acc| < MaxTokens
    ensures LexWith([d], acc, boundStars) == Some(acc + [Token(Num, [d])])
  {
    DigitRule([d]);
    assert [d][..1] == [d];
    assert [d][1..] == [];
  }

  /** Only the number rule matches a digit not followed by a letter or digit, and only that digit. */
  lemma DigitRule(s: string)
    requires |s| >= 1 && IsDigit(s[0]) && (|s| == 1 || !IsAlnum(s[1]))
    ensures FirstRule(s, 0) == 12 && MatchLen(Rules[12], s) == 1
  {
    assert Run(s, Digits) == 1 by {
      assert |s| > 1 ==> s[1..][0] == s[1];
    }
    DigitFirst(s);
  }

  /** A literal whose first character differs from the text's does not match it. */
  lemma LiteralMiss(s: string, lit: string)
    requires |s| >= 1 && |lit| >= 1 && s[0] != lit[0]
    ensures Literal(s, lit) == 0
  {
    if |lit| <= |s| {
      assert s[..|lit|][0] != lit[0];
    }
  }

  /** A single blank adds nothing. */
  lemma LexBlank(x: string, acc: seq<Token>, boundStars: bool)
    requires x == [] || x[0] != ' '
    ensures LexWith(" " + x, acc, boundStars) == LexWith(x, acc, boundStars)
  {
    var s := " " + x;
    assert Run(s, Blanks) == 1 by {
      assert s[1..] == x;
    }
    FirstRuleIs(s, 0, 0);
    assert s[1..] == x;
  }

  /** An opening parenthesis. */
  lemma LexOpen(x: string, acc: seq<Token>, boundStars: bool)
    requires |acc| < MaxTokens
    ensures LexWith("(" + x, acc, boundStars) == LexWith(x, acc + [Token(LParen, "(")], boundStars)
  {
    var s := "(" + x;
    assert s[0] == '(';
    forall j | 0 <= j < 6 ensures MatchLen(Rules[j], s) == 0 {
      if j == 2 && |s| >= 2 {
        assert s[..2][0] == '(';
      }
    }
    assert s[..1] == "(";
    FirstRuleIs(s, 0, 6);
    assert s[1..] == x;
  }

  /** A minus sign. */
  lemma LexMinusSign(x: string, acc: seq<Token>, boundStars: bool)
    requires |acc| < MaxTokens
    ensures LexWith("-" + x, acc, boundStars) == LexWith(x, acc + [Token(Minus, "-")], boundStars)
  {
    var s := "-" + x;
    assert s[0] == '-';
    forall j | 0 <= j < 3 ensures MatchLen(Rules[j], s) == 0 {
      if j == 2 && |s| >= 2 {
        assert s[..2][0] == '-';
      }
    }
    assert s[..1] == "-";
    FirstRuleIs(s, 0, 3);
    assert s[1..] == x;
  }

  /** A slash. */
  lemma LexSlash(x: string, acc: seq<Token>, boundStars: bool)
    requires |acc| < MaxTokens
    ensures LexWith("/" + x, acc, boundStars) == LexWith(x, acc + [Token(Div, "/")], boundStars)
  {
    var s := "/" + x;
    assert s[0] == '/';
    forall j | 0 <= j < 5 ensures MatchLen(Rules[j], s) == 0 {
      if j == 2 && |s| >= 2 {
        assert s[..2][0] == '/';
      }
    }
    assert s[..1] == "/";
    FirstRuleIs(s, 0, 5);
    assert s[1..] == x;
  }

  /** A closing parenthesis. */
  lemma LexClose(x: string, acc: seq<Token>, boundStars: bool)
    requires |acc| < MaxTokens
    ensures LexWith(")" + x, acc, boundStars) == LexWith(x, acc + [Token(RParen, ")")], boundStars)
  {
    var s := ")" + x;
    assert s[0] == ')';
    forall j | 0 <= j < 7 ensures MatchLen(Rules[j], s) == 0 {
      if j == 2 && |s| >= 2 {
        assert s[..2][0] == ')';
      }
    }
    assert s[..1] == ")";
    FirstRuleIs(s, 0, 7);
    assert s[1..] == x;
  }

  /** A decimal number of any length not followed by a letter or digit. */
  lemma LexNumber(w: string, x: string, acc: seq<Token>, boundStars: bool)
    requires |w| >= 1 && (forall i :: 0 <= i < |w| ==> IsDigit(w[i])) && |acc| < MaxTokens
    requires x == [] || !IsAlnum(x[0])
    ensures LexWith(w + x, acc, boundStars) == LexWith(x, acc + [Token(Num, w)], boundStars)
  {
    var s := w + x;
    NumberRule(w, x);
    assert s[..|w|] == w;
    assert s[|w|..] == x;
  }

  /** Only the number rule matches a run of digits not followed by a letter or digit, and it takes the whole run. */
  lemma NumberRule(w: string, x: string)
    requires |w| >= 1 && (forall i :: 0 <= i < |w| ==> IsDigit(w[i]))
    requires x == [] || !IsAlnum(x[0])
    ensures FirstRule(w + x, 0) == 12 && MatchLen(Rules[12], w + x) == |w|
  {
    var s := w + x;
    assert s[0] == w[0];
    if |w| >= 2 {
      assert s[1] == w[1];
    } else if x != [] {
      assert s[1] == x[0];
    }
    RunThrough(w, x, Digits);
    DigitFirst(s);
  }

  /** At a digit that no 'x' follows, the first rule to match is the number rule. */
  lemma DigitFirst(s: string)
    requires |s| >= 1 && IsDigit(s[0]) && (|s| >= 2 ==> s[1] != 'x')
    ensures FirstRule(s, 0) == 12
  {
    DigitMissesOperators(s);
    DigitMissesWords(s);
    FirstRuleIs(s, 0, 12);
  }

  /** No rule for a blank or an operator matches at a digit. */
  lemma DigitMissesOperators(s: string)
    requires |s| >= 1 && IsDigit(s[0])
    ensures forall j :: 0 <= j < 10 ==> MatchLen(Rules[j], s) == 0
  {
    forall j | 0 <= j < 10 ensures MatchLen(Rules[j], s) == 0 {
      assert s[..1][0] == s[0];
      if j == 2 || j == 8 || j == 9 {
        if |s| >= 2 {
          assert s[..2][0] == s[0];
        }
      }
    }
  }

  /** Neither the register rule nor, without an 'x' after it, the hexadecimal rule matches at a digit; the number rule does. */
  lemma DigitMissesWords(s: string)
    requires |s| >= 1 && IsDigit(s[0]) && (|s| >= 2 ==> s[1] != 'x')
    ensures MatchLen(Rules[10], s) == 0 && MatchLen(Rules[11], s) == 0 && MatchLen(Rules[12], s) > 0
  {
    if |s| >= 3 {
      assert s[..2][1] == s[1];
    }
  }


  /** '$' and a name of letters and digits, not followed by another one. */
  lemma LexRegister(name: string, x: string, acc: seq<Token>, boundStars: bool)
    requires |name| >= 1 && (forall i :: 0 <= i < |name| ==> IsAlnum(name[i]))
    requires x == [] || !IsAlnum(x[0])
    requires |acc| < MaxTokens
    ensures LexWith("$" + name + x, acc, boundStars) == LexWith(x, acc + [Token(Reg, "$" + name)], boundStars)
  {
    var s := "$" + name + x;
    RegisterRule(name, x);
    assert s[..1 + |name|] == "$" + name;
    assert s[1 + |name|..] == x;
  }

  /** Before the register rule, no rule matches at a '$'; the register rule takes the whole name. */
  lemma RegisterRule(name: string, x: string)
    requires |name| >= 1 && (forall i :: 0 <= i < |name| ==> IsAlnum(name[i]))
    requires x == [] || !IsAlnum(x[0])
    ensures FirstRule("$" + name + x, 0) == 10 && MatchLen(Rules[10], "$" + name + x) == 1 + |name|
  {
    var s := "$" + name + x;
    RegisterMatch(name, x);
    DollarMissesEarlierRules(s);
    FirstRuleIs(s, 0, 10);
  }

  /** The register rule reads the '$' and the whole name. */
  lemma RegisterMatch(name: string, x: string)
    requires |name| >= 1 && (forall i :: 0 <= i < |name| ==> IsAlnum(name[i]))
    requires x == [] || !IsAlnum(x[0])
    ensures MatchLen(Rules[10], "$" + name + x) == 1 + |name|
  {
    var w := name + x;
    var s := "$" + name + x;
    assert s == ['$'] + w;
    assert s[1..] == w;
    assert s[0] == '$' && s[1] == name[0];
    RunThrough(name, x, Alnums);
  }

  /** No rule before the register rule matches text that starts with '$'. */
  lemma DollarMissesEarlierRules(s: string)
    requires |s| >= 2 && s[0] == '$'
    ensures forall j :: 0 <= j < 10 ==> MatchLen(Rules[j], s) == 0
  {
    forall j | 0 <= j < 10 ensures MatchLen(Rules[j], s) == 0 {
      assert s[..1][0] == '$';
      if j == 2 || j == 8 || j == 9 {
        assert s[..2][0] == '$';
      }
    }
  }

  /** A run over a word of the class stops where the word does. */
  lemma {:induction false} RunThrough(w: string, x: string, cls: CharClass)
    requires forall i :: 0 <= i < |w| ==> InClass(w[i], cls)
    requires x == [] || !InClass(x[0], cls)
    ensures Run(w + x, cls) == |w|
    decreases |w|
  {
    if w != [] {
      assert (w + x)[1..] == w[1..] + x;
      RunThrough(w[1..], x, cls);
    } else {
      assert w + x == x;
    }
  }

  /**
   * 512 copies of "1+" followed by "*": the '*' is the 1025th token. make_token
   * as written stores it past the end of the 1024-entry token array; with the
   * capacity checked, the text is refused.
   */
  lemma StarOverflowsTokenArray()
    ensures LexAsWritten(Pairs(512) + "*").Some?
    ensures |LexAsWritten(Pairs(512) + "*").value| == MaxTokens + 1
    ensures Lex(Pairs(512) + "*").None?
  {
    LexPairs(512, "*", [], false);
    LexPairs(512, "*", [], true);
    assert [] + PairTokens(512) == PairTokens(512);
    assert "*" + [] == "*";
    LexStar([], PairTokens(512), false);
    LexStar([], PairTokens(512), true);
  }
}
