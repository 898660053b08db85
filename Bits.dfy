/**
 * 32-bit machine words and the bit-field helpers the RV32 decoder is built from:
 * field extraction (the BITS macro), sign extension of a narrow field (the SEXT
 * macro, truncated back to the 32-bit word_t), and the signed view of a word
 * (the sword_t cast). Everything here stays in bit-vector arithmetic, and every
 * helper is written without branches: a word chosen by a condition is computed
 * with masks instead.
 */
module Bits {

  /** word_t of the riscv32 build: an unsigned 32-bit value, arithmetic wraps. */
  type Word = bv32

  /** A mask of the low `len` bits, 1 <= len <= 31. */
  function LowMask(len: Word): Word
    requires 1 <= len < 32
  {
    ((1 as Word) << len) - 1
  }

  /** The word with only bit `len - 1` set: the sign bit of a `len`-bit field. */
  function SignBit(len: Word): Word
    requires 1 <= len <= 32
  {
    (1 as Word) << (len - 1)
  }

  /** BITS(x, hi, lo): the field x[hi:lo], moved down to bit 0. */
  function Field(x: Word, hi: Word, lo: Word): Word
    requires lo <= hi < 32 && hi - lo < 31
  {
    (x >> lo) & LowMask(hi - lo + 1)
  }

  /**
   * SEXT(x, len) followed by the truncation to word_t: the low `len` bits of x,
   * with bit len-1 copied into every higher bit. Flipping the sign bit and
   * subtracting it back borrows through all the higher bits exactly when the
   * sign bit was set.
   */
  function Sext(x: Word, len: Word): Word
    requires 1 <= len < 32
  {
    ((x & LowMask(len)) ^ SignBit(len)) - SignBit(len)
  }

  /** Bit 31 set: negative as a sword_t. */
  predicate IsNegative(x: Word)
  {
    x & 0x8000_0000 != 0
  }

  /**
   * (sword_t)a < (sword_t)b. Flipping the sign bit maps the signed order onto the
   * unsigned one.
   */
  predicate SignedLess(a: Word, b: Word)
  {
    (a ^ 0x8000_0000) < (b ^ 0x8000_0000)
  }

  /** All ones for a negative word, zero otherwise: the sign bit copied everywhere. */
  function SignMask(x: Word): Word
  {
    -(x >> 31)
  }

  /** A shift amount: five bits, so it is always below the word width. */
  type Shamt = bv5

  /** `x & 0x1f` of the shift instructions, as a shift amount. */
  function ShiftAmount(x: Word): Shamt
  {
    (x & 0x1F) as Shamt
  }

  /**
   * (sword_t)x >> n, which gcc compiles to an arithmetic shift: the logical
   * shift, with the n vacated high bits filled with copies of the sign.
   */
  function ShiftRightArith(x: Word, n: Shamt): Word
  {
    (x >> n) | (SignMask(x) & !(0xFFFF_FFFF >> n))
  }

  /** |x| of a signed word, as an unsigned magnitude (0x80000000 for the minimum). */
  function Magnitude(x: Word): Word
  {
    (x ^ SignMask(x)) - SignMask(x)
  }

  /** The signed order: negatives first, then within one sign the unsigned order. */
  lemma SignedLessCases(a: Word, b: Word)
    ensures SignedLess(a, b) <==> (IsNegative(a) && !IsNegative(b)) || (IsNegative(a) == IsNegative(b) && a < b)
  {
  }

  /** The sign mask is all ones exactly for a negative word. */
  lemma SignMaskCases(x: Word)
    ensures SignMask(x) == (if IsNegative(x) then 0xFFFF_FFFF else 0)
  {
  }

  /** The shift amount is the low five bits of the operand. */
  lemma ShiftAmountLow(x: Word)
    ensures ShiftAmount(x) as Word == x & 0x1F
  {
  }

  lemma SignMaskNonNegative(x: Word)
    requires !IsNegative(x)
    ensures SignMask(x) == 0
  {
  }

  lemma ShiftWithoutFill(x: Word, n: Shamt)
    requires SignMask(x) == 0
    ensures ShiftRightArith(x, n) == x >> n
  {
  }

  /** On a non-negative word the arithmetic shift is the logical one. */
  lemma ShiftRightArithNonNegative(x: Word, n: Shamt)
    requires !IsNegative(x)
    ensures ShiftRightArith(x, n) == x >> n
  {
    SignMaskNonNegative(x);
    ShiftWithoutFill(x, n);
  }

  /** The arithmetic shift keeps the sign. */
  lemma ShiftRightArithSign(x: Word, n: Shamt)
    ensures IsNegative(ShiftRightArith(x, n)) == IsNegative(x)
  {
    SignMaskCases(x);
  }

  /** The magnitude of a non-negative word is the word itself ... */
  lemma MagnitudeNonNegative(x: Word)
    requires !IsNegative(x)
    ensures Magnitude(x) == x
  {
    SignMaskCases(x);
  }

  /** ... and of a negative word its two's-complement negation. */
  lemma MagnitudeNegative(x: Word)
    requires IsNegative(x)
    ensures Magnitude(x) == -x
  {
    SignMaskCases(x);
  }
  /** Sign-extending a byte keeps the byte. */
  lemma Sext8Low(x: Word)
    ensures Sext(x, 8) & 0xFF == x & 0xFF
  {
  }

  /** Sign-extending a byte copies its bit 7 into bits 31:8. */
  lemma Sext8High(x: Word)
    ensures Sext(x, 8) >> 8 == (if x & 0x80 != 0 then 0xFF_FFFF else 0)
  {
  }

  /** Sign-extending a half-word keeps the half-word. */
  lemma Sext16Low(x: Word)
    ensures Sext(x, 16) & 0xFFFF == x & 0xFFFF
  {
  }

  /** Sign-extending a half-word copies its bit 15 into bits 31:16. */
  lemma Sext16High(x: Word)
    ensures Sext(x, 16) >> 16 == (if x & 0x8000 != 0 then 0xFFFF else 0)
  {
  }

  /** Only the low five bits of a shift operand count. */
  lemma ShiftAmountMasked(x: Word)
    ensures ShiftAmount(x) == ShiftAmount(x & 0x1F)
    ensures ShiftAmount(x + 32) == ShiftAmount(x)
  {
  }

  lemma XorNonNegative(a: Word, b: Word)
    requires !IsNegative(a) && !IsNegative(b)
    ensures !IsNegative(a ^ b)
  {
  }

  /** Conditional negation by an all-zero mask leaves a word as it is. */
  lemma NoNegation(q: Word, s: Word)
    requires s == 0
    ensures (q ^ s) - s == q
  {
  }
}
