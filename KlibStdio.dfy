/**
 * The klib formatted output (stdio.c): itoa, which writes the digits of an
 * int into a buffer and reverses them in place, and sprintf with its %s,
 * %d and %% directives, as section 7.21.6.6 of ISO/IEC 9899:2011 describes
 * sprintf for those directives.
 */
module KlibStdio {
  import opened Wrappers
  import opened KlibString

  const IntMin: int := -0x8000_0000
  const IntMax: int := 0x7FFF_FFFF

  predicate IsInt32(v: int)
  {
    IntMin <= v <= IntMax
  }

  const Zero: Byte := 48
  const SmallA: Byte := 97
  const Minus: Byte := 45
  const Percent: Byte := 37
  const LetterS: Byte := 115
  const LetterD: Byte := 100

  /** The size of sprintf's temp_str. */
  const TempSize: nat := 33

  /** C's `/` on int: the quotient truncated toward zero. */
  function CDiv(a: int, b: int): (q: int)
    requires b > 0
    ensures a >= 0 ==> q == a / b
  {
    if a >= 0 then a / b else -((-a) / b)
  }

  /** C's `%` on int: the remainder takes the sign of the dividend. */
  function CRem(a: int, b: int): (r: int)
    requires b > 0
    ensures -b < r < b && (a >= 0 ==> r == a % b)
  {
    if a >= 0 then a % b else -((-a) % b)
  }

  function Abs(v: int): nat
  {
    if v < 0 then -v else v
  }

  /** The character itoa writes for a remainder d: '0' + d below 10, 'a' + d - 10 above. */
  function DigitChar(d: int): (c: Byte)
    requires -36 < d < 36
    ensures c != Nul
  {
    if d < 10 then Zero + d else d - 10 + SmallA
  }

  /** The value of a digit character that DigitChar writes for 0 <= d < 36. */
  function DigitValue(c: Byte): int
  {
    if c < SmallA then c - Zero else c - SmallA + 10
  }

  /** The characters itoa's first loop writes, least significant first, for a value of either sign. */
  function DigitsRev(v: int, base: int): (s: seq<Byte>)
    requires 2 <= base <= 36
    decreases Abs(v)
  {
    if v == 0 then []
    else
      assert Abs(CDiv(v, base)) < Abs(v) by { CDivShrinks(v, base); }
      [DigitChar(CRem(v, base))] + DigitsRev(CDiv(v, base), base)
  }

  /** C's division by a base of at least 2 brings a non-zero value closer to 0. */
  lemma CDivShrinks(v: int, base: int)
    requires v != 0 && base >= 2
    ensures Abs(CDiv(v, base)) < Abs(v)
  {
    DivShrinks(Abs(v), base);
  }

  /** Dividing a positive value by a base of at least 2 makes it smaller. */
  lemma DivShrinks(v: nat, base: int)
    requires v > 0 && base >= 2
    ensures v / base < v
  {
    var q, r := v / base, v % base;
    DivMod(v, base);
    MulNonNegative(q, base - 2);
    assert q * base == q * (base - 2) + 2 * q;
  }

  /** Euclidean division of a natural number: quotient times divisor plus remainder. */
  lemma DivMod(v: nat, base: int)
    requires base >= 2
    ensures v == (v / base) * base + v % base && 0 <= v % base < base
  {
  }

  lemma MulNonNegative(a: nat, b: nat)
    ensures a * b >= 0
  {
  }

  /** The base-b digits of v, most significant first; "0" for 0. */
  function Digits(v: nat, base: int): (s: seq<Byte>)
    requires 2 <= base <= 36
    ensures |s| >= 1
  {
    if v < base then [DigitChar(v)] else Digits(v / base, base) + [DigitChar(v % base)]
  }

  /** The value of a digit string in base b, most significant first. */
  function Value(s: seq<Byte>, base: int): int
  {
    if s == [] then 0 else Value(s[..|s| - 1], base) * base + DigitValue(s[|s| - 1])
  }

  function Reverse(s: seq<Byte>): (r: seq<Byte>)
    ensures |r| == |s|
  {
    if s == [] then [] else Reverse(s[1..]) + [s[0]]
  }

  /** Position i of the reversal holds the byte |s| - 1 - i positions in. */
  lemma {:induction false} ReverseIndex(s: seq<Byte>)
    ensures forall i :: 0 <= i < |s| ==> Reverse(s)[i] == s[|s| - 1 - i]
  {
    if s != [] {
      ReverseIndex(s[1..]);
    }
  }

  /** A byte appended at the end comes first in the reversal. */
  lemma {:induction false} ReverseSnoc(s: seq<Byte>, c: Byte)
    ensures Reverse(s + [c]) == [c] + Reverse(s)
  {
    if s != [] {
      assert (s + [c])[1..] == s[1..] + [c];
      ReverseSnoc(s[1..], c);
    } else {
      assert Reverse([c]) == Reverse([]) + [c];
    }
  }

  /**
   * The text itoa writes before the terminator. The magnitude of a negative
   * value is taken in unbounded arithmetic, so INT_MIN has one too.
   */
  function ItoaText(value: int, base: int, isSigned: bool): (t: seq<Byte>)
    requires 2 <= base <= 36
  {
    var negative := isSigned && value < 0;
    var v := if negative then -value else value;
    if v == 0 then [Zero] else Reverse(DigitsRev(v, base) + if negative then [Minus] else [])
  }

  /** The 32-bit two's complement wrap of an int result. */
  function Wrap32(v: int): (w: int)
    ensures IsInt32(w)
  {
    (v + 0x8000_0000) % 0x1_0000_0000 - 0x8000_0000
  }

  /**
   * itoa as the code is written when `value = -value` wraps: for INT_MIN the
   * negation leaves INT_MIN, and the digit loop then runs on a negative value.
   */
  function ItoaAsWritten(value: int, base: int, isSigned: bool): (t: seq<Byte>)
    requires IsInt32(value) && 2 <= base <= 36
  {
    var negative := isSigned && value < 0;
    var v := if negative then Wrap32(-value) else value;
    if v == 0 then [Zero] else Reverse(DigitsRev(v, base) + if negative then [Minus] else [])
  }

  /** Reversing the least-significant-first characters of a positive value gives its digits. */
  lemma {:induction false} ReverseDigits(v: nat, base: int)
    requires v > 0 && 2 <= base <= 36
    ensures Reverse(DigitsRev(v, base)) == Digits(v, base)
    decreases v
  {
    DivShrinks(v, base);
    var q, c := v / base, DigitChar(v % base);
    assert DigitsRev(v, base) == [c] + DigitsRev(q, base);
    ReverseCons(c, DigitsRev(q, base));
    if v >= base {
      ReverseDigits(q, base);
    } else {
      DivSmall(v, base);
    }
  }

  /** A value below the base is its own last digit. */
  lemma DivSmall(v: nat, base: int)
    requires v < base && base >= 2
    ensures v / base == 0 && v % base == v
  {
    DivMod(v, base);
  }

  /** A byte put in front goes last in the reversal. */
  lemma ReverseCons(c: Byte, s: seq<Byte>)
    ensures Reverse([c] + s) == Reverse(s) + [c]
  {
    assert ([c] + s)[1..] == s;
  }

  /** itoa of a non-negative value is its base-b digits, most significant first; "0" for 0. */
  lemma ItoaNonNegative(value: int, base: int, isSigned: bool)
    requires value >= 0 && 2 <= base <= 36
    ensures ItoaText(value, base, isSigned) == Digits(value, base)
  {
    if value > 0 {
      ReverseDigits(value, base);
      assert DigitsRev(value, base) + [] == DigitsRev(value, base);
    }
  }

  /** Signed itoa of a negative value is '-' followed by the digits of its magnitude. */
  lemma ItoaNegative(value: int, base: int)
    requires value < 0 && 2 <= base <= 36
    ensures ItoaText(value, base, true) == [Minus] + Digits(-value, base)
  {
    ReverseDigits(-value, base);
    ReverseSnoc(DigitsRev(-value, base), Minus);
  }

  /** DigitValue reads back what DigitChar writes for a digit. */
  lemma DigitBack(d: int)
    requires 0 <= d < 36
    ensures DigitValue(DigitChar(d)) == d
  {
  }

  lemma ValueSnoc(p: seq<Byte>, c: Byte, base: int)
    ensures Value(p + [c], base) == Value(p, base) * base + DigitValue(c)
  {
    assert (p + [c])[..|p|] == p;
  }

  /** Reading the digits back gives the value. */
  lemma {:induction false} DigitsRoundTrip(v: nat, base: int)
    requires 2 <= base <= 36
    ensures Value(Digits(v, base), base) == v
    decreases v
  {
    if v < base {
      DigitBack(v);
      ValueSnoc([], DigitChar(v), base);
      assert [] + [DigitChar(v)] == [DigitChar(v)];
    } else {
      var q, r := v / base, v % base;
      DivShrinks(v, base);
      DigitsRoundTrip(q, base);
      DivMod(v, base);
      DigitBack(r);
      ValueSnoc(Digits(q, base), DigitChar(r), base);
    }
  }

  /** Values below base^k have at most k digits. */
  lemma {:induction false} DigitsLength(v: nat, base: int, k: nat, bound: nat)
    requires 2 <= base <= 36 && k >= 1 && bound == Power(base, k) && v < bound
    ensures |Digits(v, base)| <= k
    decreases k
  {
    assert Power(base, 1) == base;
    if v >= base {
      DivBelow(v, base, Power(base, k - 1));
      DigitsLength(v / base, base, k - 1, Power(base, k - 1));
    }
  }

  function Power(b: nat, k: nat): nat
  {
    if k == 0 then 1 else b * Power(b, k - 1)
  }

  lemma DivBelow(v: nat, base: nat, p: nat)
    requires base >= 2 && v < base * p
    ensures v / base < p
  {
    var q, r := v / base, v % base;
    DivMod(v, base);
    if q >= p {
      MulNonNegative(q - p, base);
    }
  }

  /** Every int32 has at most 10 decimal digits, so %d needs at most 12 of temp_str's 33 bytes. */
  lemma DecimalFits(value: int)
    requires IsInt32(value)
    ensures |ItoaText(value, 10, true)| + 1 <= 12 < TempSize
  {
    assert Power(10, 10) == 10000000000;
    if value >= 0 {
      ItoaNonNegative(value, 10, true);
      DigitsLength(value, 10, 10, Power(10, 10));
    } else {
      ItoaNegative(value, 10);
      DigitsLength(-value, 10, 10, Power(10, 10));
    }
  }

  /** For INT_MIN the wrapped negation prints punctuation instead of "-2147483648". */
  lemma IntMinAsWritten()
    ensures ItoaAsWritten(IntMin, 10, true) == [45, 46, 47, 44, 41, 44, 40, 45, 42, 44, 40]
  {
    var d := DigitsRev(IntMin, 10);
    WrapIntMin();
    AsWrittenWraps(IntMin);
    IntMinDigitsRev();
    ReverseSnoc(d, Minus);
    ReverseTen(d);
  }

  /** The corrected itoa prints INT_MIN as "-2147483648". */
  lemma IntMinText()
    ensures ItoaText(IntMin, 10, true) == [45, 50, 49, 52, 55, 52, 56, 51, 54, 52, 56]
  {
    ItoaNegative(IntMin, 10);
    IntMinDigits();
  }

  /** When the negation wraps back to the value itself, the digit loop runs on a negative value. */
  lemma AsWrittenWraps(v: int)
    requires IsInt32(v) && v < 0 && Wrap32(-v) == v
    ensures ItoaAsWritten(v, 10, true) == Reverse(DigitsRev(v, 10) + [Minus])
  {
  }

  lemma WrapIntMin()
    ensures Wrap32(-IntMin) == IntMin
  {
    assert -IntMin + 0x8000_0000 == 0x1_0000_0000;
  }

  lemma ReverseTen(d: seq<Byte>)
    requires d == [40, 44, 42, 45, 40, 44, 41, 44, 47, 46]
    ensures Reverse(d) == [46, 47, 44, 41, 44, 40, 45, 42, 44, 40]
  {
    ReverseIndex(d);
  }

  /** The characters of INT_MIN's digit loop when it runs on the negative value: '0' minus each digit. */
  lemma IntMinDigitsRev()
    ensures DigitsRev(IntMin, 10) == [40, 44, 42, 45, 40, 44, 41, 44, 47, 46]
  {
    IntMinDigitsRevHigh();
    assert DigitsRev(-2147483, 10) == [45, 40, 44, 41, 44, 47, 46];
    assert DigitsRev(-21474836, 10) == [42, 45, 40, 44, 41, 44, 47, 46];
    assert DigitsRev(-214748364, 10) == [44, 42, 45, 40, 44, 41, 44, 47, 46];
  }

  /** The reversed digits of the leading six decimal places of INT_MIN. */
  lemma IntMinDigitsRevHigh()
    ensures DigitsRev(-214748, 10) == [40, 44, 41, 44, 47, 46]
  {
    assert DigitsRev(0, 10) == [];
    assert DigitsRev(-2, 10) == [46];
    assert DigitsRev(-21, 10) == [47, 46];
    assert DigitsRev(-214, 10) == [44, 47, 46];
    assert DigitsRev(-2147, 10) == [41, 44, 47, 46];
    assert DigitsRev(-21474, 10) == [44, 41, 44, 47, 46];
  }

  /** The decimal digits of 2147483648. */
  lemma IntMinDigits()
    ensures Digits(-IntMin, 10) == [50, 49, 52, 55, 52, 56, 51, 54, 52, 56]
  {
    assert Digits(2, 10) == [50];
    assert Digits(21, 10) == [50, 49];
    assert Digits(214, 10) == [50, 49, 52];
    assert Digits(2147, 10) == [50, 49, 52, 55];
    assert Digits(21474, 10) == [50, 49, 52, 55, 52];
    assert Digits(214748, 10) == [50, 49, 52, 55, 52, 56];
    assert Digits(2147483, 10) == [50, 49, 52, 55, 52, 56, 51];
    assert Digits(21474836, 10) == [50, 49, 52, 55, 52, 56, 51, 54];
    assert Digits(214748364, 10) == [50, 49, 52, 55, 52, 56, 51, 54, 52];
  }

  /** Off INT_MIN the code as written and the corrected itoa agree. */
  lemma AsWrittenAgrees(value: int, base: int, isSigned: bool)
    requires IsInt32(value) && 2 <= base <= 36 && (isSigned ==> value != IntMin)
    ensures ItoaAsWritten(value, base, isSigned) == ItoaText(value, base, isSigned)
  {
  }

  /** The two-pointer loop of itoa: reverses buf[0, len) in place. */
  method ReverseInPlace(buf: array<Byte>, len: nat)
    requires len <= buf.Length
    modifies buf
    ensures buf[..len] == Reverse(old(buf[..len])) && buf[len..] == old(buf[len..])
  {
    ghost var w := buf[..len];
    var lo, hi := 0, len - 1;
    while lo < hi
      invariant 0 <= lo && hi == len - 1 - lo && lo <= len
      invariant forall k :: 0 <= k < lo ==> buf[k] == w[len - 1 - k]
      invariant forall k :: hi < k < len ==> buf[k] == w[len - 1 - k]
      invariant forall k :: lo <= k <= hi ==> buf[k] == w[k]
      invariant buf[len..] == old(buf[len..])
    {
      var tmp := buf[hi];
      buf[hi] := buf[lo];
      buf[lo] := tmp;
      lo, hi := lo + 1, hi - 1;
    }
    ReverseIndex(w);
    assert buf[..len] == Reverse(w);
  }

  /**
   * The digit loop of itoa: writes the characters of v, least significant
   * first, at buf[at..].
   */
  method WriteDigits(buf: array<Byte>, at: nat, value: int, base: int) returns (next: nat)
    requires 2 <= base <= 36 && at + |DigitsRev(value, base)| <= buf.Length
    modifies buf
    ensures next == at + |DigitsRev(value, base)|
    ensures buf[..] == old(buf[..at]) + DigitsRev(value, base) + old(buf[next..])
  {
    ghost var all := DigitsRev(value, base);
    var v := value;
    next := at;
    while v != 0
      invariant at <= next && next + |DigitsRev(v, base)| == at + |all|
      invariant buf[..at] == old(buf[..at]) && buf[at..next] + DigitsRev(v, base) == all
      invariant buf[next..] == old(buf[next..])
      decreases Abs(v)
    {
      var t := CRem(v, base);
      CDivShrinks(v, base);
      ghost var later := DigitsRev(CDiv(v, base), base);
      assert DigitsRev(v, base) == [DigitChar(t)] + later;
      buf[next] := DigitChar(t);
      assert buf[at..next + 1] == buf[at..next] + [DigitChar(t)];
      next := next + 1;
      v := CDiv(v, base);
    }
    assert buf[..] == buf[..at] + buf[at..next] + buf[next..];
  }

  /**
   * itoa: the text of value in the given base and a terminator at the
   * start of str. The negation is taken in unbounded arithmetic, so a
   * signed INT_MIN prints as "-2147483648" (the corrected behaviour; see
   * ItoaAsWritten for the wrapping negation of the code as written).
   */
  method Itoa(value: int, str: array<Byte>, base: int, isSigned: bool) returns (r: array<Byte>)
    requires IsInt32(value) && 2 <= base <= 36
    requires |ItoaText(value, base, isSigned)| < str.Length
    modifies str
    ensures r == str
    ensures var t := ItoaText(value, base, isSigned); str[..] == t + [Nul] + old(str[|t| + 1..])
  {
    var negative := false;
    var v := value;
    if isSigned && v < 0 {
      negative := true;
      v := -v;
    }
    if v == 0 {
      str[0] := Zero;
      str[1] := Nul;
      assert str[..] == [Zero] + [Nul] + str[2..];
      return str;
    }
    ghost var text := DigitsRev(v, base) + if negative then [Minus] else [];
    assert ItoaText(value, base, isSigned) == Reverse(text);
    WriteReversed(str, v, base, negative);
    return str;
  }

  /** itoa of a non-zero value: the characters written backwards, the terminator, then the reversal. */
  method WriteReversed(str: array<Byte>, v: int, base: int, negative: bool)
    requires 2 <= base <= 36
    requires |DigitsRev(v, base)| + (if negative then 1 else 0) < str.Length
    modifies str
    ensures var text := DigitsRev(v, base) + if negative then [Minus] else [];
      str[..] == Reverse(text) + [Nul] + old(str[|text| + 1..])
  {
    var ptr := WriteBackwards(str, v, base, negative);
    str[ptr] := Nul;
    ReverseInPlace(str, ptr);
    assert str[..] == str[..ptr] + [str[ptr]] + str[ptr + 1..];
  }

  /** itoa before its reversal: the digits least significant first, then '-' for a negative value. */
  method WriteBackwards(str: array<Byte>, v: int, base: int, negative: bool) returns (ptr: nat)
    requires 2 <= base <= 36
    requires |DigitsRev(v, base)| + (if negative then 1 else 0) < str.Length
    modifies str
    ensures var text := DigitsRev(v, base) + if negative then [Minus] else [];
      ptr == |text| && str[..] == text + old(str[ptr..])
  {
    ptr := WriteDigits(str, 0, v, base);
    if negative {
      str[ptr] := Minus;
      assert str[..ptr + 1] == str[..ptr] + [Minus];
      ptr := ptr + 1;
    }
    assert str[..] == str[..ptr] + str[ptr..];
  }

  /** A variadic argument: a C string for %s or an int for %d. */
  datatype Arg = Text(chars: seq<Byte>) | Int(d: int)

  /**
   * What sprintf writes for a format's contents and its arguments, before
   * the terminator; None when the call is undefined: a lone '%' at the end
   * (sprintf then reads past the terminator), a missing or mistyped
   * argument, an unterminated string argument or a %d argument outside int.
   */
  function Format(f: seq<Byte>, args: seq<Arg>): (r: Option<seq<Byte>>)
    decreases |f|
  {
    if f == [] then Some([])
    else if f[0] != Percent then Prepend([f[0]], Format(f[1..], args))
    else if |f| == 1 then None
    else if f[1] == LetterS then
      if args == [] || !args[0].Text? || Nul !in args[0].chars then None
      else Prepend(Str(args[0].chars), Format(f[2..], args[1..]))
    else if f[1] == LetterD then
      if args == [] || !args[0].Int? || !IsInt32(args[0].d) then None
      else Prepend(ItoaText(args[0].d, 10, true), Format(f[2..], args[1..]))
    else if f[1] == Percent then Prepend([Percent], Format(f[2..], args))
    else Prepend([Percent, f[1]], Format(f[2..], args))
  }

  function Prepend(s: seq<Byte>, r: Option<seq<Byte>>): Option<seq<Byte>>
  {
    if r.Some? then Some(s + r.value) else None
  }

  /** A format without '%' is copied verbatim and uses no argument. */
  lemma {:induction false} FormatPlain(f: seq<Byte>, args: seq<Arg>)
    requires Percent !in f
    ensures Format(f, args) == Some(f)
    decreases |f|
  {
    if f != [] {
      FormatPlain(f[1..], args);
      assert f == [f[0]] + f[1..];
    }
  }

  /** The output of a NUL-free format has no NUL either, so the count sprintf returns is the output's strlen. */
  lemma {:induction false} FormatNoNul(f: seq<Byte>, args: seq<Arg>)
    requires Nul !in f && Format(f, args).Some?
    ensures Nul !in Format(f, args).value
    decreases |f|
  {
    if f != [] && f[0] != Percent {
      assert Nul !in f[1..] by { assert forall k :: 1 <= k < |f| ==> f[1..][k - 1] == f[k]; }
      FormatNoNul(f[1..], args);
    } else if f != [] {
      assert f[1] != Nul && Nul !in f[2..] by { assert forall k :: 2 <= k < |f| ==> f[2..][k - 2] == f[k]; }
      if f[1] == LetterS {
        FormatNoNul(f[2..], args[1..]);
      } else if f[1] == LetterD {
        ItoaNoNul(args[0].d);
        FormatNoNul(f[2..], args[1..]);
      } else {
        FormatNoNul(f[2..], args);
      }
    }
  }

  lemma {:induction false} DigitsRevNoNul(v: int, base: int)
    requires 2 <= base <= 36
    ensures Nul !in DigitsRev(v, base)
    decreases Abs(v)
  {
    if v != 0 {
      CDivShrinks(v, base);
      DigitsRevNoNul(CDiv(v, base), base);
    }
  }

  lemma ItoaNoNul(value: int)
    ensures Nul !in ItoaText(value, 10, true)
  {
    var negative := value < 0;
    var v := if negative then -value else value;
    if v != 0 {
      DigitsRevNoNul(v, 10);
      var d := DigitsRev(v, 10) + if negative then [Minus] else [];
      assert Nul !in d;
      ReverseIndex(d);
    }
  }

  /** %d, %s, %% and an unknown directive each on their own. */
  lemma Directives(c: Byte, s: seq<Byte>, d: int)
    requires Nul in s && IsInt32(d)
    requires c != LetterS && c != LetterD && c != Percent
    ensures Format([Percent, LetterD], [Int(d)]) == Some(ItoaText(d, 10, true))
    ensures Format([Percent, LetterS], [Text(s)]) == Some(Str(s))
    ensures Format([Percent, Percent], []) == Some([Percent])
    ensures Format([Percent, c], []) == Some([Percent, c])
    ensures Format([Percent], []) == None
  {
    var e: seq<Byte> := [];
    assert [Percent, LetterD][2..] == e && [Int(d)][1..] == [];
    assert ItoaText(d, 10, true) + e == ItoaText(d, 10, true);
    assert [Percent, LetterS][2..] == e && [Text(s)][1..] == [];
    assert Str(s) + e == Str(s);
    assert [Percent, Percent][2..] == e && [Percent] + e == [Percent];
    assert [Percent, c][2..] == e && [Percent, c] + e == [Percent, c];
  }

  /** The `while (*s)` copy of sprintf: the contents of the C string src written at out[o..]. */
  method CopyOut(out: array<Byte>, o: nat, src: seq<Byte>) returns (next: nat)
    requires Nul in src && o + StrLen(src) <= out.Length
    modifies out
    ensures next == o + StrLen(src)
    ensures out[..] == old(out[..o]) + Str(src) + old(out[next..])
  {
    ghost var len := StrLen(src);
    var j := 0;
    while src[j] != Nul
      invariant j <= len
      invariant out[..o] == old(out[..o])
      invariant out[o..o + j] == src[..j]
      invariant out[o + j..] == old(out[o + j..])
      decreases len - j
    {
      assert src[..len][j] == src[j];
      assert old(out[o + j + 1..]) == old(out[o + j..])[1..];
      out[o + j] := src[j];
      assert out[o..o + j + 1] == out[o..o + j] + [src[j]];
      assert src[..j + 1] == src[..j] + [src[j]];
      j := j + 1;
    }
    next := o + j;
    assert out[..] == out[..o] + out[o..next] + out[next..];
  }

  /** The invariant of sprintf's loop: what is written and what the rest of the format will write make the whole output. */
  ghost predicate Progress(fs: seq<Byte>, args: seq<Arg>, f: nat, a: nat, written: seq<Byte>, room: nat)
  {
    f <= |fs| && a <= |args| && Format(fs[f..], args[a..]).Some? &&
    Format(fs, args) == Some(written + Format(fs[f..], args[a..]).value) &&
    |Format(fs[f..], args[a..]).value| < room
  }

  /** A plain character of the format is written as it is. */
  lemma PlainStep(fs: seq<Byte>, args: seq<Arg>, f: nat, a: nat)
    requires f < |fs| && a <= |args| && fs[f] != Percent && Format(fs[f..], args[a..]).Some?
    ensures Format(fs[f + 1..], args[a..]).Some?
    ensures Format(fs[f..], args[a..]).value == [fs[f]] + Format(fs[f + 1..], args[a..]).value
  {
    assert fs[f..][1..] == fs[f + 1..];
  }

  /** What a defined directive at fs[f] writes, and the argument it takes. */
  lemma DirectiveStep(fs: seq<Byte>, args: seq<Arg>, f: nat, a: nat)
    requires f < |fs| && a <= |args| && fs[f] == Percent && Format(fs[f..], args[a..]).Some?
    ensures f + 1 < |fs|
    ensures var c := fs[f + 1]; var rest := Format(fs[f..], args[a..]).value;
      if c == LetterS then
        a < |args| && args[a].Text? && Nul in args[a].chars && Format(fs[f + 2..], args[a + 1..]).Some? &&
        rest == Str(args[a].chars) + Format(fs[f + 2..], args[a + 1..]).value
      else if c == LetterD then
        a < |args| && args[a].Int? && IsInt32(args[a].d) && Format(fs[f + 2..], args[a + 1..]).Some? &&
        rest == ItoaText(args[a].d, 10, true) + Format(fs[f + 2..], args[a + 1..]).value
      else
        Format(fs[f + 2..], args[a..]).Some? &&
        rest == (if c == Percent then [Percent] else [Percent, c]) + Format(fs[f + 2..], args[a..]).value
  {
    assert fs[f..][2..] == fs[f + 2..];
    if a < |args| {
      assert args[a..][1..] == args[a + 1..];
    }
  }

  /** Writing the next piece of the output keeps the invariant of sprintf's loop, with the pointers moved past it. */
  lemma Advance(fs: seq<Byte>, args: seq<Arg>, f: nat, a: nat, written: seq<Byte>, room: nat,
                piece: seq<Byte>, f2: nat, a2: nat)
    requires Progress(fs, args, f, a, written, room)
    requires f2 <= |fs| && a2 <= |args| && Format(fs[f2..], args[a2..]).Some?
    requires Format(fs[f..], args[a..]).value == piece + Format(fs[f2..], args[a2..]).value
    ensures |piece| < room && Progress(fs, args, f2, a2, written + piece, room - |piece|)
  {
    assert written + (piece + Format(fs[f2..], args[a2..]).value) == (written + piece) + Format(fs[f2..], args[a2..]).value;
  }

  /**
   * sprintf: the formatted text and a terminator at the start of out; the
   * result is the number of characters written before the terminator.
   */
  method Sprintf(out: array<Byte>, fmt: array<Byte>, args: seq<Arg>) returns (count: nat)
    requires Nul in fmt[..] && out != fmt
    requires Format(Str(fmt[..]), args).Some? && |Format(Str(fmt[..]), args).value| < out.Length
    modifies out
    ensures var text := Format(Str(fmt[..]), args).value;
      count == |text| && out[..] == text + [Nul] + old(out[|text| + 1..])
  {
    ghost var fs := Str(fmt[..]);
    var temp := new Byte[TempSize];
    var f, o, a := 0, 0, 0;
    assert fs[0..] == fs && args[0..] == args && out[..0] == [];
    assert out[..0] + Format(fs, args).value == Format(fs, args).value;
    NulAt(fmt[..], f);
    while fmt[f] != Nul
      invariant o <= out.Length && Progress(fs, args, f, a, out[..o], out.Length - o)
      invariant out[o..] == old(out[o..])
      invariant f < fmt.Length && (fmt[f] == Nul <==> f == |fs|)
      decreases |fs| - f
    {
      o, f, a := Step(out, fmt, args, temp, fs, o, f, a);
      NulAt(fmt[..], f);
    }
    FormatDone(fs, args, f, a, out[..o], out.Length - o);
    ghost var written, rest := out[..o], out[o + 1..];
    assert rest == old(out[o..])[1..] == old(out[o + 1..]);
    out[o] := Nul;
    assert out[..o] == written && out[o + 1..] == rest;
    assert out[..] == written + [Nul] + rest;
    return o;
  }

  /** The loop of sprintf stops at the terminator of fmt and nowhere before it. */
  lemma NulAt(s: seq<Byte>, f: nat)
    requires Nul in s && f <= |Str(s)|
    ensures f < |s| && (s[f] == Nul <==> f == |Str(s)|)
  {
    var n := StrLen(s);
    if f < n {
      assert s[..n][f] == s[f];
    }
  }

  /** When the whole format has been read, what was written is its output. */
  lemma FormatDone(fs: seq<Byte>, args: seq<Arg>, f: nat, a: nat, written: seq<Byte>, room: nat)
    requires Progress(fs, args, f, a, written, room) && f == |fs|
    ensures Format(fs, args) == Some(written) && |written| < |written| + room
  {
    assert fs[f..] == [];
    assert written + [] == written;
  }

  /** One turn of sprintf's loop: a plain character or one directive, with the pointers moved past it. */
  method Step(out: array<Byte>, fmt: array<Byte>, args: seq<Arg>, temp: array<Byte>, ghost fs: seq<Byte>,
              o: nat, f: nat, a: nat) returns (o2: nat, f2: nat, a2: nat)
    requires Nul in fmt[..] && fs == Str(fmt[..]) && out != fmt && temp != out && temp != fmt
    requires temp.Length == TempSize && o <= out.Length
    requires Progress(fs, args, f, a, out[..o], out.Length - o) && f < |fs|
    modifies out, temp
    ensures f < f2 && o <= o2 <= out.Length
    ensures Progress(fs, args, f2, a2, out[..o2], out.Length - o2)
    ensures out[o2..] == old(out[o2..])
  {
    ghost var written := out[..o];
    ghost var piece: seq<Byte>;
    assert fmt[f] == fs[f];
    if fmt[f] == Percent {
      DirectiveStep(fs, args, f, a);
      assert fmt[f + 1] == fs[f + 1];
      var c := fmt[f + 1];
      if c == LetterS {
        piece := Str(args[a].chars);
        o2 := CopyOut(out, o, args[a].chars);
        a2 := a + 1;
      } else if c == LetterD {
        piece := ItoaText(args[a].d, 10, true);
        o2 := EmitDecimal(out, o, temp, args[a].d);
        a2 := a + 1;
      } else if c == Percent {
        piece := [Percent];
        out[o] := Percent;
        o2, a2 := o + 1, a;
      } else {
        piece := [Percent, c];
        out[o] := Percent;
        out[o + 1] := c;
        o2, a2 := o + 2, a;
      }
      f2 := f + 2;
    } else {
      PlainStep(fs, args, f, a);
      piece := [fmt[f]];
      out[o] := fmt[f];
      o2, f2, a2 := o + 1, f + 1, a;
    }
    Advance(fs, args, f, a, written, out.Length - o, piece, f2, a2);
    assert out[..o2] == written + piece;
  }

  /** The %d case of sprintf: itoa into temp_str, then the copy of temp_str to out. */
  method EmitDecimal(out: array<Byte>, o: nat, temp: array<Byte>, d: int) returns (next: nat)
    requires IsInt32(d) && temp.Length == TempSize && temp != out
    requires o + |ItoaText(d, 10, true)| <= out.Length
    modifies out, temp
    ensures var t := ItoaText(d, 10, true);
      next == o + |t| && out[..] == old(out[..o]) + t + old(out[next..])
  {
    ghost var t := ItoaText(d, 10, true);
    ghost var before := temp[..];
    DecimalFits(d);
    var _ := Itoa(d, temp, 10, true);
    ItoaNoNul(d);
    TextThenNul(t, before[|t| + 1..]);
    next := CopyOut(out, o, temp[..]);
  }

  /** A NUL-free text followed by a terminator is the C string's contents. */
  lemma TextThenNul(t: seq<Byte>, rest: seq<Byte>)
    requires Nul !in t
    ensures Nul in t + [Nul] + rest && StrLen(t + [Nul] + rest) == |t| && Str(t + [Nul] + rest) == t
  {
    StrLenAppend(t, [Nul] + rest);
    assert t + [Nul] + rest == t + ([Nul] + rest);
    assert StrLen([Nul] + rest) == 0;
  }
}
