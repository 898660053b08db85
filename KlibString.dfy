/**
 * The klib string and memory routines (string.c) over byte arrays, each
 * proved against a specification on the bytes it reads, as section 7.24 of
 * ISO/IEC 9899:2011 describes them. A C string is an array holding a NUL
 * byte; its contents are the bytes before the first NUL.
 */
module KlibString {
  /** An unsigned char. */
  type Byte = b: int | 0 <= b < 256

  const Nul: Byte := 0

  /** The index of the first NUL: the length strlen reports. */
  function StrLen(s: seq<Byte>): (n: nat)
    requires Nul in s
    ensures n < |s| && s[n] == Nul && Nul !in s[..n]
  {
    if s[0] == Nul then 0
    else
      assert Nul in s[1..] by {
        var k :| 0 <= k < |s| && s[k] == Nul;
        assert s[1..][k - 1] == Nul;
      }
      var m := StrLen(s[1..]);
      assert s[..m + 1] == [s[0]] + s[1..][..m];
      m + 1
  }

  /** The contents of a C string. */
  function Str(s: seq<Byte>): seq<Byte>
    requires Nul in s
  {
    s[..StrLen(s)]
  }

  /** The contents and their terminator. */
  function Terminated(s: seq<Byte>): seq<Byte>
    requires Nul in s
  {
    s[..StrLen(s) + 1]
  }

  /** Bytes without a NUL followed by a C string form one C string: the lengths add up. */
  lemma {:induction false} StrLenAppend(a: seq<Byte>, b: seq<Byte>)
    requires Nul !in a && Nul in b
    ensures Nul in a + b && StrLen(a + b) == |a| + StrLen(b) && Str(a + b) == a + Str(b)
    decreases |a|
  {
    assert (a + b)[|a| + StrLen(b)] == Nul;
    if a != [] {
      StrLenAppend(a[1..], b);
      assert (a + b)[1..] == a[1..] + b;
    }
  }

  /** Only the bytes up to the terminator matter to StrLen. */
  lemma {:induction false} StrLenPrefix(s: seq<Byte>, t: seq<Byte>)
    requires Nul in s && StrLen(s) < |t| && t[..StrLen(s) + 1] == s[..StrLen(s) + 1]
    ensures Nul in t && StrLen(t) == StrLen(s)
  {
    var n := StrLen(s);
    assert t[n] == Nul;
    assert t[..n] == s[..n];
  }

  /**
   * The number of bytes strncpy copies: the leading non-NUL bytes, at most n
   * of them. Fewer than n means a NUL stopped the copy.
   */
  function NLen(s: seq<Byte>, n: nat): (m: nat)
    requires Nul in s || n <= |s|
    ensures m <= n && m <= |s| && Nul !in s[..m] && (m < n ==> m < |s| && s[m] == Nul)
  {
    if n == 0 || s[0] == Nul then 0
    else
      assert Nul in s[1..] || n - 1 <= |s[1..]| by {
        if Nul in s {
          var k :| 0 <= k < |s| && s[k] == Nul;
          assert s[1..][k - 1] == Nul;
        }
      }
      var m := NLen(s[1..], n - 1);
      assert s[..m + 1] == [s[0]] + s[1..][..m];
      m + 1
  }

  /** On a C string NLen is the smaller of n and the string's length. */
  lemma NLenOfString(s: seq<Byte>, n: nat)
    requires Nul in s
    ensures NLen(s, n) == if n < StrLen(s) then n else StrLen(s)
  {
  }

  /** The bytes strncmp looks at: up to and including the terminator, at most n of them. */
  function Window(s: seq<Byte>, n: nat): (w: seq<Byte>)
    requires Nul in s || n <= |s|
    ensures |w| <= n
  {
    var m := NLen(s, n);
    if m < n then s[..m + 1] else s[..m]
  }

  function Zeros(n: nat): (z: seq<Byte>)
    ensures |z| == n && forall i :: 0 <= i < n ==> z[i] == Nul
  {
    seq(n, _ => Nul)
  }

  /**
   * Comparison as strcmp, strncmp and memcmp return it: the difference of
   * the first pair of bytes that differ, or 0 when one sequence runs out
   * first or both do.
   */
  function Cmp(x: seq<Byte>, y: seq<Byte>): int
  {
    if x == [] || y == [] then 0
    else if x[0] != y[0] then x[0] - y[0]
    else Cmp(x[1..], y[1..])
  }

  /** Lexicographic order of byte strings, a proper prefix coming first. */
  predicate Below(x: seq<Byte>, y: seq<Byte>)
  {
    if x == [] then y != []
    else y != [] && (x[0] < y[0] || (x[0] == y[0] && Below(x[1..], y[1..])))
  }

  /** Two byte sequences of the same length compare 0 exactly when they are equal. */
  lemma {:induction false} CmpZeroIff(x: seq<Byte>, y: seq<Byte>)
    requires |x| == |y|
    ensures Cmp(x, y) == 0 <==> x == y
  {
    if x != [] && x[0] == y[0] {
      CmpZeroIff(x[1..], y[1..]);
      if x[1..] == y[1..] {
        assert x == [x[0]] + x[1..];
        assert y == [y[0]] + y[1..];
      }
    }
  }

  /**
   * On terminated contents the comparison is 0 exactly when the strings are
   * equal and negative exactly when the first comes first in lexicographic
   * order of unsigned bytes.
   */
  lemma {:induction false} CmpStrings(x: seq<Byte>, y: seq<Byte>)
    requires Nul !in x && Nul !in y
    ensures Cmp(x + [Nul], y + [Nul]) == 0 <==> x == y
    ensures Cmp(x + [Nul], y + [Nul]) < 0 <==> Below(x, y)
    decreases |x|
  {
    var tx, ty := x + [Nul], y + [Nul];
    if x != [] && y != [] {
      assert tx[1..] == x[1..] + [Nul] && ty[1..] == y[1..] + [Nul];
      CmpStrings(x[1..], y[1..]);
      if x[0] == y[0] && x[1..] == y[1..] {
        assert x == [x[0]] + x[1..];
        assert y == [y[0]] + y[1..];
      }
    } else if x != [] {
      assert tx[0] == x[0];
    } else if y != [] {
      assert ty[0] == y[0];
    }
  }

  /** strlen: the index of the first NUL. */
  method Strlen(s: array<Byte>) returns (count: nat)
    requires Nul in s[..]
    ensures count == StrLen(s[..])
  {
    count := 0;
    while s[count] != Nul
      invariant count <= StrLen(s[..])
      decreases StrLen(s[..]) - count
    {
      assert s[..StrLen(s[..])][count] == s[count];
      count := count + 1;
    }
  }

  /**
   * The copy loop of strcpy and strcat: the contents of src and a
   * terminator written at dst[at..]; the bytes around them stay.
   */
  method CopyString(dst: array<Byte>, at: nat, src: array<Byte>)
    requires Nul in src[..] && at + StrLen(src[..]) < dst.Length && dst != src
    modifies dst
    ensures dst[..] == old(dst[..at]) + Terminated(src[..]) + old(dst[at + StrLen(src[..]) + 1..])
  {
    ghost var len := StrLen(src[..]);
    var i := 0;
    while src[i] != Nul
      invariant i <= len
      invariant forall j :: 0 <= j < at ==> dst[j] == old(dst[j])
      invariant forall j :: 0 <= j < i ==> dst[at + j] == src[j]
      invariant forall j :: at + i <= j < dst.Length ==> dst[j] == old(dst[j])
      decreases len - i
    {
      assert src[..len][i] == src[i];
      dst[at + i] := src[i];
      i := i + 1;
    }
    dst[at + i] := Nul;
    ghost var expected := old(dst[..at]) + Terminated(src[..]) + old(dst[at + len + 1..]);
    forall j | 0 <= j < dst.Length
      ensures dst[j] == expected[j]
    {
      if at <= j <= at + len {
        assert expected[j] == src[..len + 1][j - at];
      }
    }
    assert dst[..] == expected;
  }

  /** strcpy: the contents of src and its terminator at the start of dst; the bytes after stay. */
  method Strcpy(dst: array<Byte>, src: array<Byte>) returns (r: array<Byte>)
    requires Nul in src[..] && StrLen(src[..]) < dst.Length && dst != src
    modifies dst
    ensures r == dst
    ensures dst[..] == Terminated(src[..]) + old(dst[StrLen(src[..]) + 1..])
  {
    CopyString(dst, 0, src);
    return dst;
  }

  /** What strcpy leaves in dst is the same C string as src. */
  lemma StrcpyString(src: seq<Byte>, rest: seq<Byte>)
    requires Nul in src
    ensures Nul in Terminated(src) + rest && Str(Terminated(src) + rest) == Str(src)
  {
    var t := Terminated(src) + rest;
    StrLenPrefix(src, t);
    assert t[..StrLen(src)] == src[..StrLen(src)];
  }

  /**
   * strncpy: exactly n bytes written, the first NLen(src, n) copied from src
   * and the rest NUL; when src is n bytes or longer no terminator is written.
   */
  method Strncpy(dst: array<Byte>, src: array<Byte>, n: nat) returns (r: array<Byte>)
    requires n <= dst.Length && (Nul in src[..] || n <= src.Length) && dst != src
    modifies dst
    ensures r == dst
    ensures var m := NLen(src[..], n); dst[..] == src[..m] + Zeros(n - m) + old(dst[n..])
  {
    ghost var m := NLen(src[..], n);
    var i := 0;
    while i < n && src[i] != Nul
      invariant i <= m
      invariant dst[..i] == src[..i] && dst[i..] == old(dst[i..])
    {
      assert src[..m][i] == src[i];
      dst[i] := src[i];
      i := i + 1;
    }
    while i < n
      invariant m <= i <= n
      invariant dst[..i] == src[..m] + Zeros(i - m) && dst[i..] == old(dst[i..])
    {
      dst[i] := Nul;
      assert Zeros(i + 1 - m) == Zeros(i - m) + [Nul];
      i := i + 1;
    }
    assert dst[..] == dst[..n] + dst[n..];
    return dst;
  }

  /** strncpy's n bytes hold a terminator exactly when the source string is shorter than n. */
  lemma StrncpyTerminates(src: seq<Byte>, n: nat)
    requires Nul in src
    ensures var m := NLen(src, n); Nul in src[..m] + Zeros(n - m) <==> StrLen(src) < n
  {
    var m := NLen(src, n);
    NLenOfString(src, n);
    if StrLen(src) < n {
      assert (src[..m] + Zeros(n - m))[m] == Nul;
    }
  }

  /** strcat: the contents of src and a terminator written over dst's terminator. */
  method Strcat(dst: array<Byte>, src: array<Byte>) returns (r: array<Byte>)
    requires Nul in dst[..] && Nul in src[..] && dst != src
    requires StrLen(dst[..]) + StrLen(src[..]) < dst.Length
    modifies dst
    ensures r == dst
    ensures var d, s := StrLen(old(dst[..])), StrLen(src[..]);
      dst[..] == old(dst[..d]) + Terminated(src[..]) + old(dst[d + s + 1..])
  {
    ghost var d := StrLen(dst[..]);
    var end := 0;
    while dst[end] != Nul
      invariant end <= d
      decreases d - end
    {
      assert dst[..d][end] == dst[end];
      end := end + 1;
    }
    CopyString(dst, end, src);
    return dst;
  }

  /** After strcat dst holds the old contents followed by src's. */
  lemma StrcatString(d: seq<Byte>, src: seq<Byte>, rest: seq<Byte>)
    requires Nul in d && Nul in src
    ensures var t := Str(d) + Terminated(src) + rest; Nul in t && Str(t) == Str(d) + Str(src)
  {
    var tail := Terminated(src) + rest;
    StrcpyString(src, rest);
    StrLenAppend(Str(d), tail);
    assert Str(d) + Terminated(src) + rest == Str(d) + tail;
  }

  /** strcmp: the difference of the first differing unsigned bytes of the terminated strings. */
  method Strcmp(s1: array<Byte>, s2: array<Byte>) returns (r: int)
    requires Nul in s1[..] && Nul in s2[..]
    ensures r == Cmp(Terminated(s1[..]), Terminated(s2[..]))
  {
    ghost var t1, t2 := Terminated(s1[..]), Terminated(s2[..]);
    ghost var n1, n2 := StrLen(s1[..]), StrLen(s2[..]);
    var i := 0;
    while s1[i] != Nul && s2[i] != Nul && s1[i] == s2[i]
      invariant i <= n1 && i <= n2
      invariant Cmp(t1, t2) == Cmp(t1[i..], t2[i..])
      decreases n1 - i
    {
      assert s1[..n1][i] == s1[i];
      assert s2[..n2][i] == s2[i];
      assert t1[i..][1..] == t1[i + 1..] && t2[i..][1..] == t2[i + 1..];
      i := i + 1;
    }
    assert t1[i..][0] == s1[i] && t2[i..][0] == s2[i];
    if s1[i] == s2[i] {
      assert t1[i..][1..] == [];
    }
    r := s1[i] as int - s2[i] as int;
  }

  /** Below index n, position i of the window is the byte of s, and the window ends after i when s[i] stops the scan. */
  lemma WindowIndex(s: seq<Byte>, n: nat, i: nat)
    requires (Nul in s || n <= |s|) && i < n && i <= NLen(s, n)
    ensures i < |s| && i < |Window(s, n)| && Window(s, n)[i] == s[i]
    ensures s[i] != Nul ==> i < NLen(s, n)
    ensures s[i] == Nul || i + 1 == n ==> |Window(s, n)| == i + 1
  {
    var m := NLen(s, n);
    if i < m {
      assert s[..m][i] == s[i];
    }
  }

  /** One step of Cmp over suffixes: equal bytes at i pass the comparison on, and the last or a differing byte decides it. */
  lemma CmpAt(x: seq<Byte>, y: seq<Byte>, i: nat)
    requires i < |x| && i < |y|
    ensures x[i] == y[i] ==> Cmp(x[i..], y[i..]) == Cmp(x[i + 1..], y[i + 1..])
    ensures x[i] != y[i] || i + 1 == |x| || i + 1 == |y| ==> Cmp(x[i..], y[i..]) == x[i] as int - y[i] as int
  {
    assert x[i..][1..] == x[i + 1..] && y[i..][1..] == y[i + 1..];
  }

  /**
   * The scan loop of strncmp: it stops at the first index where a byte
   * differs or is NUL, or at n - 1; the comparison of the windows is then
   * decided from there on.
   */
  method ScanEqual(s1: array<Byte>, s2: array<Byte>, n: nat) returns (i: nat)
    requires (Nul in s1[..] || n <= s1.Length) && (Nul in s2[..] || n <= s2.Length) && n > 0
    ensures i < n && i <= NLen(s1[..], n) && i <= NLen(s2[..], n)
    ensures i + 1 == n || s1[i] == Nul || s2[i] == Nul || s1[i] != s2[i]
    ensures Cmp(Window(s1[..], n), Window(s2[..], n)) == Cmp(Window(s1[..], n)[i..], Window(s2[..], n)[i..])
  {
    ghost var a1, a2 := s1[..], s2[..];
    ghost var w1, w2 := Window(a1, n), Window(a2, n);
    i := 0;
    while i + 1 < n && s1[i] != Nul && s2[i] != Nul && s1[i] == s2[i]
      invariant i < n && i <= NLen(a1, n) && i <= NLen(a2, n)
      invariant Cmp(w1, w2) == Cmp(w1[i..], w2[i..])
    {
      WindowIndex(a1, n, i);
      WindowIndex(a2, n, i);
      CmpAt(w1, w2, i);
      i := i + 1;
    }
  }

  /** strncmp: as strcmp on at most the first n bytes; 0 when n is 0. */
  method Strncmp(s1: array<Byte>, s2: array<Byte>, n: nat) returns (r: int)
    requires Nul in s1[..] || n <= s1.Length
    requires Nul in s2[..] || n <= s2.Length
    ensures r == Cmp(Window(s1[..], n), Window(s2[..], n))
  {
    if n == 0 {
      return 0;
    }
    var i := ScanEqual(s1, s2, n);
    WindowIndex(s1[..], n, i);
    WindowIndex(s2[..], n, i);
    CmpAt(Window(s1[..], n), Window(s2[..], n), i);
    r := s1[i] as int - s2[i] as int;
  }

  /** Cmp is 0 exactly when one of the two sequences is a prefix of the other. */
  lemma {:induction false} CmpZeroPrefix(x: seq<Byte>, y: seq<Byte>)
    ensures Cmp(x, y) == 0 <==> (|x| <= |y| && x == y[..|x|]) || (|y| <= |x| && y == x[..|y|])
  {
    if x != [] && y != [] {
      if x[0] == y[0] {
        CmpZeroPrefix(x[1..], y[1..]);
        if |x| <= |y| {
          if x == y[..|x|] {
            assert x[1..] == y[1..][..|x| - 1];
          }
          if x[1..] == y[1..][..|x| - 1] {
            assert x == [x[0]] + x[1..] && y[..|x|] == [y[0]] + y[1..][..|x| - 1];
          }
        }
        if |y| <= |x| {
          if y == x[..|y|] {
            assert y[1..] == x[1..][..|y| - 1];
          }
          if y[1..] == x[1..][..|y| - 1] {
            assert y == [y[0]] + y[1..] && x[..|y|] == [x[0]] + x[1..][..|y| - 1];
          }
        }
      }
    }
  }

  /** A window is n bytes with no NUL, or ends at its first NUL. */
  lemma WindowShape(s: seq<Byte>, n: nat)
    requires Nul in s || n <= |s|
    ensures var w := Window(s, n);
      (|w| == n && Nul !in w) || (1 <= |w| <= n && w[|w| - 1] == Nul && Nul !in w[..|w| - 1])
  {
    var m := NLen(s, n);
    if m < n {
      assert s[..m + 1][..m] == s[..m];
    }
  }

  /** No window is a proper prefix of another window of the same bound. */
  lemma WindowNotProperPrefix(s1: seq<Byte>, s2: seq<Byte>, n: nat)
    requires Nul in s1 || n <= |s1|
    requires Nul in s2 || n <= |s2|
    ensures var w1, w2 := Window(s1, n), Window(s2, n);
      !(|w1| < |w2| && w1 == w2[..|w1|])
  {
    var w1, w2 := Window(s1, n), Window(s2, n);
    WindowShape(s1, n);
    WindowShape(s2, n);
    if |w1| < |w2| {
      var k := |w1| - 1;
      assert w1[k] == Nul;
      assert w2[k] != Nul by {
        if |w2| < n {
          assert w2[..|w2| - 1][k] == w2[k];
        }
      }
      assert w2[..|w1|][k] != w1[k];
    }
  }

  /**
   * strncmp answers 0 exactly when the two windows are equal: windows differ
   * in length only when one of them stops at a NUL the other does not have.
   */
  lemma StrncmpZeroIff(s1: seq<Byte>, s2: seq<Byte>, n: nat)
    requires Nul in s1 || n <= |s1|
    requires Nul in s2 || n <= |s2|
    ensures Cmp(Window(s1, n), Window(s2, n)) == 0 <==> Window(s1, n) == Window(s2, n)
  {
    CmpZeroPrefix(Window(s1, n), Window(s2, n));
    WindowNotProperPrefix(s1, s2, n);
    WindowNotProperPrefix(s2, s1, n);
  }

  /** On two C strings long enough for n, strncmp compares as strcmp. */
  lemma StrncmpWhole(s1: seq<Byte>, s2: seq<Byte>, n: nat)
    requires Nul in s1 && Nul in s2 && StrLen(s1) < n && StrLen(s2) < n
    ensures Window(s1, n) == Terminated(s1) && Window(s2, n) == Terminated(s2)
  {
    NLenOfString(s1, n);
    NLenOfString(s2, n);
  }

  /** memset: bytes [0, n) become c converted to unsigned char; the rest stay. */
  method Memset(s: array<Byte>, c: int, n: nat) returns (r: array<Byte>)
    requires n <= s.Length
    modifies s
    ensures r == s
    ensures s[..] == seq(n, _ => (c % 256) as Byte) + old(s[n..])
  {
    var value: Byte := c % 256;
    var i := 0;
    while i < n
      invariant i <= n
      invariant s[..i] == seq(i, _ => value) && s[i..] == old(s[i..])
    {
      s[i] := value;
      i := i + 1;
    }
    assert s[..] == s[..n] + s[n..];
    return s;
  }

  /** memcpy: dst[0, n) becomes src[0, n); the rest of dst stays. */
  method Memcpy(dst: array<Byte>, src: array<Byte>, n: nat) returns (r: array<Byte>)
    requires n <= dst.Length && n <= src.Length && dst != src
    modifies dst
    ensures r == dst
    ensures dst[..] == src[..n] + old(dst[n..])
  {
    var i := 0;
    while i < n
      invariant i <= n
      invariant dst[..i] == src[..i] && dst[i..] == old(dst[i..])
    {
      dst[i] := src[i];
      i := i + 1;
    }
    assert dst[..] == dst[..n] + dst[n..];
    return dst;
  }

  /**
   * The front-to-back copy of memmove: correct when the arrays differ or the
   * destination range starts before the source or after its end.
   */
  method CopyForward(dst: array<Byte>, dOff: nat, src: array<Byte>, sOff: nat, n: nat)
    requires dOff + n <= dst.Length && sOff + n <= src.Length
    requires dst != src || dOff < sOff || dOff >= sOff + n
    modifies dst
    ensures dst[..dOff] == old(dst[..dOff]) && dst[dOff + n..] == old(dst[dOff + n..])
    ensures dst[dOff..dOff + n] == old(src[sOff..sOff + n])
  {
    var i := 0;
    while i < n
      invariant i <= n
      invariant dst[..dOff] == old(dst[..dOff]) && dst[dOff + n..] == old(dst[dOff + n..])
      invariant dst[dOff..dOff + i] == old(src[sOff..sOff + i])
      invariant src[sOff + i..sOff + n] == old(src[sOff + i..sOff + n])
    {
      assert src[sOff + i] == src[sOff + i..sOff + n][0];
      dst[dOff + i] := src[sOff + i];
      i := i + 1;
    }
  }

  /** The back-to-front copy of memmove, for a destination inside the source range of the same array. */
  method CopyBackward(buf: array<Byte>, dOff: nat, sOff: nat, n: nat)
    requires dOff + n <= buf.Length && sOff < dOff
    modifies buf
    ensures buf[..dOff] == old(buf[..dOff]) && buf[dOff + n..] == old(buf[dOff + n..])
    ensures buf[dOff..dOff + n] == old(buf[sOff..sOff + n])
  {
    var i: nat := n;
    while i > 0
      invariant i <= n
      invariant buf[..dOff] == old(buf[..dOff]) && buf[dOff + n..] == old(buf[dOff + n..])
      invariant buf[dOff + i..dOff + n] == old(buf[sOff + i..sOff + n])
      invariant buf[sOff..sOff + i] == old(buf[sOff..sOff + i])
    {
      assert buf[sOff + i - 1] == buf[sOff..sOff + i][i - 1];
      buf[dOff + i - 1] := buf[sOff + i - 1];
      i := i - 1;
    }
  }

  /**
   * memmove from src + sOff to dst + dOff: the n destination bytes become the
   * n source bytes as they were before the call, even when the two ranges
   * overlap in one array.
   */
  method Memmove(dst: array<Byte>, dOff: nat, src: array<Byte>, sOff: nat, n: nat)
    requires dOff + n <= dst.Length && sOff + n <= src.Length
    modifies dst
    ensures dst[..] == old(dst[..dOff]) + old(src[sOff..sOff + n]) + old(dst[dOff + n..])
  {
    if dst == src && dOff == sOff {
      assert dst[..] == dst[..dOff] + dst[dOff..dOff + n] + dst[dOff + n..];
      return;
    }
    if dst != src || dOff < sOff || dOff >= sOff + n {
      CopyForward(dst, dOff, src, sOff, n);
    } else {
      CopyBackward(dst, dOff, sOff, n);
    }
    assert dst[..] == dst[..dOff] + dst[dOff..dOff + n] + dst[dOff + n..];
  }

  /** memcmp: the difference at the first differing byte of the n bytes, or 0. */
  method Memcmp(s1: array<Byte>, s2: array<Byte>, n: nat) returns (r: int)
    requires n <= s1.Length && n <= s2.Length
    ensures r == Cmp(s1[..n], s2[..n])
    ensures r == 0 <==> s1[..n] == s2[..n]
  {
    CmpZeroIff(s1[..n], s2[..n]);
    if n == 0 {
      return 0;
    }
    var i := 0;
    while i < n
      invariant i <= n
      invariant Cmp(s1[..n], s2[..n]) == Cmp(s1[i..n], s2[i..n])
    {
      if s1[i] != s2[i] {
        return s1[i] as int - s2[i] as int;
      }
      assert s1[i..n][1..] == s1[i + 1..n] && s2[i..n][1..] == s2[i + 1..n];
      i := i + 1;
    }
    return 0;
  }
}
