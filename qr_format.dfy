/**
 * addFormatInfo of the QR generator: the five format bits (error-correction
 * level and mask pattern), extended by a BCH(15,5) code, written twice
 * beside the finder patterns.
 *
 * The source works with JavaScript's 32-bit bitwise operators on values that
 * stay far below 2^31, so they are modelled on natural numbers: `x << k` is
 * x * 2^k, `(x >> i) & 1` is BitOf(x, i), and `^` and `|` are the bitwise
 * functions Xor and Or below.
 */
module QrFormat {
  import opened Wrappers
  import opened QrVersions
  import opened QrMatrix
  import opened QrBitStream

  // ---------------------------------------------------------------------
  // Bitwise exclusive and inclusive or

  /** `a ^ b` on non-negative integers, one bit at a time from the least significant. */
  function Xor(a: nat, b: nat): nat
    decreases a + b
  {
    if a == 0 && b == 0 then 0 else 2 * Xor(a / 2, b / 2) + (if a % 2 == b % 2 then 0 else 1)
  }

  /** `a | b` on non-negative integers. */
  function Or(a: nat, b: nat): nat
    decreases a + b
  {
    if a == 0 && b == 0 then 0 else 2 * Or(a / 2, b / 2) + (if a % 2 == 1 || b % 2 == 1 then 1 else 0)
  }

  lemma XorHalves(a: nat, b: nat)
    ensures Xor(a, b) % 2 == (if a % 2 == b % 2 then 0 else 1)
    ensures Xor(a, b) / 2 == Xor(a / 2, b / 2)
  {
  }

  lemma OrHalves(a: nat, b: nat)
    ensures Or(a, b) % 2 == (if a % 2 == 1 || b % 2 == 1 then 1 else 0)
    ensures Or(a, b) / 2 == Or(a / 2, b / 2)
  {
  }

  /** Bit i of a ^ b is set when exactly one of a and b has bit i set. */
  lemma {:induction false} XorBit(a: nat, b: nat, i: nat)
    ensures BitOf(Xor(a, b), i) == if BitOf(a, i) == BitOf(b, i) then 0 else 1
    decreases i
  {
    XorHalves(a, b);
    if i > 0 {
      XorBit(a / 2, b / 2, i - 1);
    }
  }

  lemma {:induction false} XorZero(a: nat)
    ensures Xor(a, 0) == a
    decreases a
  {
    if a > 0 {
      XorZero(a / 2);
    }
  }

  lemma {:induction false} XorSelf(a: nat)
    ensures Xor(a, a) == 0
    decreases a
  {
    if a > 0 {
      XorSelf(a / 2);
    }
  }

  /** The order in which two values are xor-ed in does not matter. */
  lemma {:induction false} XorSwap(a: nat, b: nat, c: nat)
    ensures Xor(Xor(a, b), c) == Xor(Xor(a, c), b)
    decreases a + b + c
  {
    if a + b + c > 0 {
      XorHalves(a, b);
      XorHalves(a, c);
      XorHalves(Xor(a, b), c);
      XorHalves(Xor(a, c), b);
      XorSwap(a / 2, b / 2, c / 2);
      var x := Xor(Xor(a, b), c);
      var y := Xor(Xor(a, c), b);
      assert x % 2 == y % 2;
      assert x / 2 == y / 2;
    }
  }

  lemma {:induction false} XorComm(a: nat, b: nat)
    ensures Xor(a, b) == Xor(b, a)
    decreases a + b
  {
    if a + b > 0 {
      XorComm(a / 2, b / 2);
    }
  }

  /** Xor-ing the same value in twice cancels. */
  lemma XorCancel(p: nat, d: nat)
    ensures Xor(p, Xor(p, d)) == d
  {
    XorComm(p, Xor(p, d));
    XorSwap(p, d, p);
    XorSelf(p);
    XorComm(0, d);
    XorZero(d);
  }

  /** Values below 2^n stay below 2^n when xor-ed. */
  lemma {:induction false} XorBound(a: nat, b: nat, n: nat)
    requires a < Pow2(n) && b < Pow2(n)
    ensures Xor(a, b) < Pow2(n)
    decreases n
  {
    if n > 0 {
      XorHalves(a, b);
      XorBound(a / 2, b / 2, n - 1);
    }
  }

  /** With d below 2^k, m shifted left by k and d share no bit: xor and or are both addition. */
  lemma {:induction false} ShiftedLow(m: nat, d: nat, k: nat)
    requires d < Pow2(k)
    ensures Xor(m * Pow2(k), d) == m * Pow2(k) + d
    ensures Or(m * Pow2(k), d) == m * Pow2(k) + d
    decreases k
  {
    if k == 0 {
      XorZero(m);
      OrZero(m);
    } else {
      var x := m * Pow2(k);
      assert x == 2 * (m * Pow2(k - 1));
      XorHalves(x, d);
      OrHalves(x, d);
      ShiftedLow(m, d / 2, k - 1);
    }
  }

  lemma {:induction false} OrZero(a: nat)
    ensures Or(a, 0) == a
    decreases a
  {
    if a > 0 {
      OrZero(a / 2);
    }
  }

  /** A value below 2^j has no bit at k >= j. */
  lemma {:induction false} BitOfLow(d: nat, j: nat, k: nat)
    requires d < Pow2(j) && j <= k
    ensures BitOf(d, k) == 0
    decreases j
  {
    if j == 0 {
      BitOfZero(k);
    } else {
      BitOfLow(d / 2, j - 1, k - 1);
    }
  }

  /** Bit k of m * 2^k + d, with d below 2^k, is the lowest bit of m. */
  lemma {:induction false} BitOfShifted(m: nat, d: nat, k: nat)
    requires d < Pow2(k)
    ensures BitOf(m * Pow2(k) + d, k) == m % 2
    decreases k
  {
    if k > 0 {
      var p := Pow2(k - 1);
      TwiceTimes(m, p);
      var x := 2 * (m * p + d / 2) + d % 2;
      assert x / 2 == m * p + d / 2;
      BitOfShifted(m, d / 2, k - 1);
    }
  }

  lemma TwiceTimes(a: nat, p: nat)
    ensures a * (2 * p) == 2 * (a * p)
  {
  }

  /** Or-ing m shifted left by k into n shifted left by k plus low bits d or-s m into n and keeps d. */
  lemma {:induction false} OrShifted(m: nat, n: nat, d: nat, k: nat)
    requires d < Pow2(k)
    ensures Or(m * Pow2(k), n * Pow2(k) + d) == Or(m, n) * Pow2(k) + d
    decreases k
  {
    if k > 0 {
      var p := Pow2(k - 1);
      var o := Or(m, n);
      TwiceTimes(m, p);
      TwiceTimes(n, p);
      TwiceTimes(o, p);
      var x := 2 * (m * p);
      var y := 2 * (n * p + d / 2) + d % 2;
      assert x / 2 == m * p && x % 2 == 0;
      assert y / 2 == n * p + d / 2 && y % 2 == d % 2;
      OrHalves(x, y);
      OrShifted(m, n, d / 2, k - 1);
      var q := Or(x, y);
      assert q / 2 == o * p + d / 2;
      assert q % 2 == d % 2;
      assert q == 2 * (o * p) + d;
    }
  }

  /** The powers of two the format information uses. */
  lemma Pow2Values()
    ensures Pow2(0) == 1 && Pow2(1) == 2 && Pow2(2) == 4 && Pow2(3) == 8 && Pow2(4) == 16
    ensures Pow2(10) == 1024 && Pow2(11) == 2048 && Pow2(12) == 4096
    ensures Pow2(13) == 8192 && Pow2(14) == 16384 && Pow2(15) == 32768
  {
  }

  /** A value below 2^(k+1) whose bit k is clear lies below 2^k. */
  lemma {:induction false} HighBitClear(x: nat, k: nat)
    requires x < Pow2(k + 1) && BitOf(x, k) == 0
    ensures x < Pow2(k)
    decreases k
  {
    if k > 0 {
      HighBitClear(x / 2, k - 1);
    }
  }

  // ---------------------------------------------------------------------
  // The format information and its BCH code

  /** The two bits of each error-correction level in the format information. */
  function EcLevelBits(level: EcLevel): (b: nat)
    ensures b < 4
  {
    match level
    case L => 1
    case M => 0
    case Q => 3
    case H => 2
  }

  lemma EcLevelBitsInjective(a: EcLevel, b: EcLevel)
    ensures EcLevelBits(a) == EcLevelBits(b) <==> a == b
  {
  }

  /** `(ecLevelBits[ecLevel] << 3) | maskPattern`. */
  function FormatInfo(level: EcLevel, maskPattern: nat): nat {
    Or(EcLevelBits(level) * 8, maskPattern)
  }

  /** For a three-bit mask pattern the five bits hold the level above the mask, and both can be read back. */
  lemma FormatInfoFields(level: EcLevel, maskPattern: nat)
    requires maskPattern < 8
    ensures FormatInfo(level, maskPattern) == EcLevelBits(level) * 8 + maskPattern < 32
    ensures FormatInfo(level, maskPattern) / 8 == EcLevelBits(level)
    ensures FormatInfo(level, maskPattern) % 8 == maskPattern
  {
    ShiftedLow(EcLevelBits(level), maskPattern, 3);
  }

  /** The generator polynomial x^10 + x^8 + x^5 + x^4 + x^2 + x + 1. */
  const Generator: nat := 0x537

  /** The generator shifted under bit k: `generator << (k - 10)`. */
  function ShiftedGenerator(k: int): nat
    requires 10 <= k <= 14
  {
    Generator * Pow2(k - 10)
  }

  /** Clears bit k (10 <= k <= 14) of b by subtracting (xor-ing) the generator shifted under it, if the bit is set. */
  function ReduceAt(b: nat, k: int): nat
    requires 10 <= k <= 14
  {
    if BitOf(b, k) == 1 then Xor(b, ShiftedGenerator(k)) else b
  }

  /** Reducing bits 10 + i, 10 + i - 1, ..., 10 in turn: the highest first, as polynomial division does. */
  function ReduceDown(b: nat, i: int): nat
    requires -1 <= i <= 4
    decreases i + 1
  {
    if i < 0 then b else ReduceDown(ReduceAt(b, 10 + i), i - 1)
  }

  /** The remainder of b modulo the generator, as polynomials over GF(2). */
  function Remainder(b: nat): nat {
    ReduceDown(b, 4)
  }

  /** The ten check bits a BCH(15,5) code attaches to five data bits: the remainder of the data shifted up by ten. */
  function BchRemainder(formatInfo: nat): nat {
    Remainder(formatInfo * 1024)
  }

  /** The fifteen-bit BCH code word: data bits above check bits. */
  function CodeWord(formatInfo: nat): nat {
    Or(formatInfo * 1024, BchRemainder(formatInfo))
  }

  /** The shifted generator has its top bit at k. */
  lemma ShiftedGeneratorTop(k: int)
    requires 10 <= k <= 14
    ensures ShiftedGenerator(k) < Pow2(k + 1)
    ensures BitOf(ShiftedGenerator(k), k) == 1
  {
    Pow2Values();
    var low := ShiftedGenerator(k) - Pow2(k);
    assert low < Pow2(k) && ShiftedGenerator(k) == 1 * Pow2(k) + low by {
      if k == 10 {
      } else if k == 11 {
      } else if k == 12 {
      } else if k == 13 {
      } else {
      }
    }
    BitOfShifted(1, low, k);
  }

  /** Reducing bit k of a value below 2^(k+1) leaves a value below 2^k. */
  lemma ReduceAtBound(b: nat, k: int)
    requires 10 <= k <= 14 && b < Pow2(k + 1)
    ensures ReduceAt(b, k) < Pow2(k)
  {
    if BitOf(b, k) == 1 {
      var g := ShiftedGenerator(k);
      ShiftedGeneratorTop(k);
      XorBit(b, g, k);
      XorBound(b, g, k + 1);
      HighBitClear(Xor(b, g), k);
    } else {
      HighBitClear(b, k);
    }
  }

  lemma {:induction false} ReduceDownBound(b: nat, i: int)
    requires -1 <= i <= 4 && b < Pow2(11 + i)
    ensures ReduceDown(b, i) < 1024
    decreases i + 1
  {
    if i >= 0 {
      ReduceAtBound(b, 10 + i);
      ReduceDownBound(ReduceAt(b, 10 + i), i - 1);
    } else {
      Pow2Values();
    }
  }

  /** Bits below 10 ride along a reduction step unchanged: it only looks at bit k >= 10. */
  lemma ReduceAtXorLow(b: nat, d: nat, k: int)
    requires 10 <= k <= 14 && d < 1024
    ensures ReduceAt(Xor(b, d), k) == Xor(ReduceAt(b, k), d)
  {
    BitOfLow(d, 10, k);
    XorBit(b, d, k);
    XorSwap(b, d, ShiftedGenerator(k));
  }

  lemma {:induction false} ReduceDownXorLow(b: nat, d: nat, i: int)
    requires -1 <= i <= 4 && d < 1024
    ensures ReduceDown(Xor(b, d), i) == Xor(ReduceDown(b, i), d)
    decreases i + 1
  {
    if i >= 0 {
      ReduceAtXorLow(b, d, 10 + i);
      ReduceDownXorLow(ReduceAt(b, 10 + i), d, i - 1);
    }
  }

  /** The check bits fit below the data bits, so the code word is the five data bits above the ten check bits. */
  lemma CodeWordFields(formatInfo: nat)
    requires formatInfo < 32
    ensures BchRemainder(formatInfo) < 1024
    ensures CodeWord(formatInfo) == formatInfo * 1024 + BchRemainder(formatInfo) < Pow2(15)
    ensures CodeWord(formatInfo) / 1024 == formatInfo
    ensures CodeWord(formatInfo) % 1024 == BchRemainder(formatInfo)
  {
    Pow2Values();
    ReduceDownBound(formatInfo * 1024, 4);
    ShiftedLow(formatInfo, BchRemainder(formatInfo), 10);
  }

  /** Distinct format information gives distinct code words. */
  lemma CodeWordInjective(f: nat, g: nat)
    requires f < 32 && g < 32
    ensures CodeWord(f) == CodeWord(g) <==> f == g
  {
    CodeWordFields(f);
    CodeWordFields(g);
  }

  /** Every code word is a multiple of the generator: dividing it leaves nothing. */
  lemma CodeWordIsMultiple(formatInfo: nat)
    requires formatInfo < 32
    ensures Remainder(CodeWord(formatInfo)) == 0
  {
    var x := formatInfo * 1024;
    var r := BchRemainder(formatInfo);
    CodeWordFields(formatInfo);
    Pow2Values();
    ShiftedLow(formatInfo, r, 10);
    assert CodeWord(formatInfo) == Xor(x, r);
    ReduceDownXorLow(x, r, 4);
    XorSelf(r);
  }

  /**
   * The source's BCH loop: step i (4 down to 0) tests bit 14 - i and xors
   * in the generator shifted by 4 - i, which is ReduceAt(b, 14 - i); so it
   * reduces bit 10 first and bit 14 last, the reverse of polynomial division.
   */
  function ReduceUp(b: nat, i: int): nat
    requires -1 <= i <= 4
    decreases i + 1
  {
    if i < 0 then b else ReduceUp(ReduceAt(b, 14 - i), i - 1)
  }

  /** What the loop leaves in `bchCode`. */
  function BchCode(formatInfo: nat): nat {
    ReduceUp(formatInfo * 1024, 4)
  }

  /** `(formatInfo << 10) | bchCode`, the value whose fifteen low bits are written. */
  function FinalFormat(formatInfo: nat): nat {
    Or(formatInfo * 1024, BchCode(formatInfo))
  }

  /** The loop `for (let i = 4; i >= 0; i--) if ((bchCode >> (14 - i)) & 1) bchCode ^= generator << (4 - i)`. */
  method ComputeBchCode(formatInfo: nat) returns (bchCode: nat)
    ensures bchCode == BchCode(formatInfo)
  {
    bchCode := formatInfo * 1024;
    var i := 4;
    while i >= 0
      invariant -1 <= i <= 4
      invariant ReduceUp(bchCode, i) == BchCode(formatInfo)
    {
      if BitOf(bchCode, 14 - i) == 1 {
        bchCode := Xor(bchCode, Generator * Pow2(4 - i));
      }
      i := i - 1;
    }
  }

  lemma {:induction false} Pow2Mono(i: nat, j: nat)
    requires i <= j
    ensures Pow2(i) <= Pow2(j)
    decreases j
  {
    if i < j {
      Pow2Mono(i, j - 1);
    }
  }

  lemma {:induction false} OrBound(a: nat, b: nat, n: nat)
    requires a < Pow2(n) && b < Pow2(n)
    ensures Or(a, b) < Pow2(n)
    decreases n
  {
    if n > 0 {
      OrHalves(a, b);
      OrBound(a / 2, b / 2, n - 1);
    }
  }

  /** No step of the loop carries a value of n >= 15 bits past n bits. */
  lemma ReduceAtBelow(b: nat, k: int, n: nat)
    requires 10 <= k <= 14 && 15 <= n && b < Pow2(n)
    ensures ReduceAt(b, k) < Pow2(n)
  {
    if BitOf(b, k) == 1 {
      ShiftedGeneratorTop(k);
      Pow2Mono(k + 1, n);
      XorBound(b, ShiftedGenerator(k), n);
    }
  }

  lemma {:induction false} ReduceUpBelow(b: nat, i: int, n: nat)
    requires -1 <= i <= 4 && 15 <= n && b < Pow2(n)
    ensures ReduceUp(b, i) < Pow2(n)
    decreases i + 1
  {
    if i >= 0 {
      ReduceAtBelow(b, 14 - i, n);
      ReduceUpBelow(ReduceAt(b, 14 - i), i - 1, n);
    }
  }

  /** The value addFormatInfo writes stays below 2^15, so its fifteen bits are all of it. */
  lemma FinalFormatBound(formatInfo: nat)
    requires formatInfo < 32
    ensures BchCode(formatInfo) < Pow2(15)
    ensures FinalFormat(formatInfo) < Pow2(15)
  {
    Pow2Values();
    ReduceUpBelow(formatInfo * 1024, 4, 15);
    OrBound(formatInfo * 1024, BchCode(formatInfo), 15);
  }

  /** Level L is 01 in the two level bits, so with mask 0 the five bits are 01000 and with mask 2 they are 01010. */
  lemma FormatInfoLevelL()
    ensures FormatInfo(L, 0) == 8 && FormatInfo(L, 2) == 10
  {
    FormatInfoFields(L, 0);
    FormatInfoFields(L, 2);
  }

  /** The first three steps of the loop on 01000 followed by ten zeros find bits 10, 11 and 12 clear. */
  lemma BchStepsLowClear()
    ensures ReduceAt(8 * 1024, 10) == 8 * 1024
    ensures ReduceAt(8 * 1024, 11) == 8 * 1024
    ensures ReduceAt(8 * 1024, 12) == 8 * 1024
  {
    Pow2Values();
    BitOfShifted(8, 0, 10);
    BitOfShifted(4, 0, 11);
    BitOfShifted(2, 0, 12);
  }

  /** The fourth step finds bit 13 set and xors in the generator shifted by three, leaving 0x09B8. */
  lemma BchStepThirteen()
    ensures ReduceAt(8 * 1024, 13) == 0x09B8
  {
    Pow2Values();
    BitOfShifted(1, 0, 13);
    ShiftedLow(1, 0x9B8, 13);
    assert ShiftedGenerator(13) == Xor(8 * 1024, 0x9B8);
    XorCancel(8 * 1024, 0x9B8);
  }

  /** The last step finds bit 14 of 0x09B8 clear. */
  lemma BchStepFourteen()
    ensures ReduceAt(0x09B8, 14) == 0x09B8
  {
    Pow2Values();
    BitOfLow(0x9B8, 12, 14);
  }

  /** What the loop leaves for level L with mask 0. */
  lemma BchCodeOfLevelLMask0()
    ensures BchCode(8) == 0x09B8
  {
    BchStepsLowClear();
    BchStepThirteen();
    BchStepFourteen();
    assert ReduceUp(8 * 1024, 4) == ReduceUp(0x9B8, -1);
  }

  /** Or-ed into the word, bit 11 of that code lands on the data bits: they read 01010. */
  lemma FinalFormatOfLevelLMask0()
    ensures FinalFormat(8) == 10 * 1024 + 0x1B8
  {
    BchCodeOfLevelLMask0();
    Pow2Values();
    OrShifted(8, 2, 0x1B8, 10);
    ShiftedLow(1, 2, 3);
  }

  /**
   * The loop is not the remainder: for level L with mask 0 it leaves bit 11
   * set, above the ten check bits, and or-ed into the word that bit turns the
   * five data bits from 01000 (level L, mask 0) into 01010 (level L, mask 2);
   * the remainder itself stays below 2^10 and keeps the data bits.
   */
  lemma BchCodeIsNotRemainder()
    ensures FormatInfo(L, 0) == 8 && FormatInfo(L, 2) == 10
    ensures BchCode(8) == 0x09B8 >= 1024
    ensures FinalFormat(8) / 1024 == FormatInfo(L, 2)
    ensures BchRemainder(8) < 1024 && CodeWord(8) / 1024 == FormatInfo(L, 0)
  {
    FormatInfoLevelL();
    BchCodeOfLevelLMask0();
    FinalFormatOfLevelLMask0();
    CodeWordFields(8);
  }

  // ---------------------------------------------------------------------
  // The bits of the word, most significant first

  /** The loop `for (i = 14; i >= 0; i--) formatBits.push((finalFormat >> i) & 1)`. */
  method ComputeFormatBits(word: nat) returns (bits: seq<Bit>)
    ensures bits == Bits(word, 15)
  {
    bits := [];
    var i := 14;
    while i >= 0
      invariant -1 <= i <= 14
      invariant bits == Bits(word, 15)[..14 - i]
    {
      bits := bits + [BitOf(word, i)];
      i := i - 1;
    }
  }

  /** The fifteen bits spell the written value back. */
  lemma FormatBitsRoundTrip(formatInfo: nat)
    requires formatInfo < 32
    ensures Value(Bits(FinalFormat(formatInfo), 15)) == FinalFormat(formatInfo)
  {
    FinalFormatBound(formatInfo);
    ValueOfBits(FinalFormat(formatInfo), 15);
  }

  // ---------------------------------------------------------------------
  // Where the bits go

  type Pos = (int, int)

  /** The cell of the first copy that receives bit i: along row 8 and up column 8 around the top-left finder, skipping the timing lines. */
  function FirstCopyCell(i: int): Pos {
    if i < 6 then (8, i)
    else if i < 8 then (8, i + 1)
    else if i == 8 then (7, 8)
    else (14 - i, 8)
  }

  /**
   * The cell of the second copy that receives bit i, as the source writes it:
   * it repeats the branch structure of the first copy, so bits 5 and 7 both
   * land on (size - 6, 8) and no bit lands on (8, size - 7).
   */
  function SecondCopyCell(i: int, size: int): Pos {
    if i < 6 then (size - 1 - i, 8)
    else if i < 8 then (size - 7 + (i - 6), 8)
    else if i == 8 then (8, size - 8)
    else (8, size - 15 + i)
  }

  /** Whether step i writes cell p. */
  predicate WritesAt(i: int, size: int, p: Pos) {
    p == FirstCopyCell(i) || p == SecondCopyCell(i, size)
  }

  /** The last of the steps 0 .. n - 1 that writes cell p. */
  function LastWriter(p: Pos, size: int, n: nat): (w: Option<nat>)
    ensures w.Some? ==> w.value < n
  {
    if n == 0 then None
    else if WritesAt(n - 1, size, p) then Some(n - 1)
    else LastWriter(p, size, n - 1)
  }

  /** LastWriter finds the step that writes p after every other step writing p, and none when no step does. */
  lemma {:induction false} LastWriterIsLast(p: Pos, size: int, n: nat)
    ensures var w := LastWriter(p, size, n);
            && (w.Some? ==> WritesAt(w.value, size, p) && forall j :: w.value < j < n ==> !WritesAt(j, size, p))
            && (w.None? ==> forall j :: 0 <= j < n ==> !WritesAt(j, size, p))
  {
    if n > 0 && !WritesAt(n - 1, size, p) {
      LastWriterIsLast(p, size, n - 1);
    }
  }

  /** The cell p after the steps 0 .. n - 1 of the placement loop have written bits over the old cell. */
  function AfterFormat(old_: Cell, p: Pos, size: int, bits: seq<Bit>, n: nat): Cell
    requires |bits| == 15 && n <= 15
  {
    match LastWriter(p, size, n)
    case None => old_
    case Some(i) => Filled(bits[i] == 1)
  }

  /**
   * In a symbol at least 17 modules wide the two copies share no cell, the
   * first copy uses fifteen distinct cells, and in the second only steps 5
   * and 7 meet.
   */
  lemma FormatCellsDistinct(size: int, i: int, j: int)
    requires size >= 17 && 0 <= i < 15 && 0 <= j < 15
    ensures FirstCopyCell(i) != SecondCopyCell(j, size)
    ensures i != j ==> FirstCopyCell(i) != FirstCopyCell(j)
    ensures SecondCopyCell(i, size) == SecondCopyCell(j, size) <==> i == j || (i == 5 && j == 7) || (i == 7 && j == 5)
  {
  }

  /** Step 7 overwrites the cell of step 5 in the second copy, and the cell (8, size - 7) is written by neither copy. */
  lemma SecondCopyCollision(size: int)
    requires size >= 17
    ensures SecondCopyCell(5, size) == SecondCopyCell(7, size) == (size - 6, 8)
    ensures LastWriter((size - 6, 8), size, 15) == Some(7)
    ensures LastWriter((8, size - 7), size, 15) == None
  {
    var shared, skipped := (size - 6, 8), (8, size - 7);
    forall j | 0 <= j < 15
      ensures !WritesAt(j, size, skipped)
      ensures 7 < j ==> !WritesAt(j, size, shared)
    {
      FormatCellsDistinct(size, j, 7);
    }
    assert WritesAt(7, size, shared);
    LastWriterIsLast(shared, size, 15);
    LastWriterIsLast(skipped, size, 15);
  }

  /** The first copy ends up holding bit i at its cell i, for every i. */
  lemma FirstCopyComplete(size: int, i: int)
    requires size >= 17 && 0 <= i < 15
    ensures LastWriter(FirstCopyCell(i), size, 15) == Some(i)
  {
    forall j | 0 <= j < 15 && j != i
      ensures !WritesAt(j, size, FirstCopyCell(i))
    {
      FormatCellsDistinct(size, i, j);
      FormatCellsDistinct(size, j, i);
    }
    assert WritesAt(i, size, FirstCopyCell(i));
    LastWriterIsLast(FirstCopyCell(i), size, 15);
  }

  /** The second copy ends up holding bit i at its cell i, except that cell 5 holds bit 7. */
  lemma SecondCopyHolds(size: int, i: int)
    requires size >= 17 && 0 <= i < 15
    ensures LastWriter(SecondCopyCell(i, size), size, 15) == Some(if i == 5 then 7 else i)
  {
    var w := if i == 5 then 7 else i;
    forall j | 0 <= j < 15 && w < j
      ensures !WritesAt(j, size, SecondCopyCell(i, size))
    {
      FormatCellsDistinct(size, j, i);
    }
    FormatCellsDistinct(size, w, i);
    assert WritesAt(w, size, SecondCopyCell(i, size));
    LastWriterIsLast(SecondCopyCell(i, size), size, 15);
  }

  /** Every format cell lies in row 8 or column 8 and in the area isReservedArea reserves. */
  lemma FormatCellsReserved(size: int, i: int)
    requires size >= 17 && 0 <= i < 15
    ensures IsReservedArea(FirstCopyCell(i).0, FirstCopyCell(i).1, size)
    ensures IsReservedArea(SecondCopyCell(i, size).0, SecondCopyCell(i, size).1, size)
    ensures FirstCopyCell(i).0 == 8 || FirstCopyCell(i).1 == 8
    ensures SecondCopyCell(i, size).0 == 8 || SecondCopyCell(i, size).1 == 8
  {
  }

  lemma AfterFormatStep(old_: Cell, p: Pos, size: int, bits: seq<Bit>, i: nat)
    requires |bits| == 15 && i < 15
    ensures AfterFormat(old_, p, size, bits, i + 1) ==
              if WritesAt(i, size, p) then Filled(bits[i] == 1) else AfterFormat(old_, p, size, bits, i)
  {
  }

  /** addFormatInfo: computes the word and writes both copies. */
  method AddFormatInfo(m: array2<Cell>, level: EcLevel, maskPattern: nat, size: int)
    requires m.Length0 == size && m.Length1 == size && size >= 9
    modifies m
    ensures forall r, c :: 0 <= r < size && 0 <= c < size ==>
              m[r, c] == AfterFormat(old(m[r, c]), (r, c), size, Bits(FinalFormat(FormatInfo(level, maskPattern)), 15), 15)
  {
    var formatInfo := Or(EcLevelBits(level) * 8, maskPattern);
    var bchCode := ComputeBchCode(formatInfo);
    var finalFormat := Or(formatInfo * 1024, bchCode);
    var formatBits := ComputeFormatBits(finalFormat);
    WriteFormatBits(m, formatBits, size);
  }

  /** The placement loop of addFormatInfo: bit i goes to its cell in each copy, the second copy after the first. */
  method WriteFormatBits(m: array2<Cell>, formatBits: seq<Bit>, size: int)
    requires m.Length0 == size && m.Length1 == size && size >= 9 && |formatBits| == 15
    modifies m
    ensures forall r, c :: 0 <= r < size && 0 <= c < size ==>
              m[r, c] == AfterFormat(old(m[r, c]), (r, c), size, formatBits, 15)
  {
    var i := 0;
    while i < 15
      invariant 0 <= i <= 15
      invariant forall r, c :: 0 <= r < size && 0 <= c < size ==>
                  m[r, c] == AfterFormat(old(m[r, c]), (r, c), size, formatBits, i)
    {
      var bit := formatBits[i] == 1;
      var first := FirstCopyCell(i);
      var second := SecondCopyCell(i, size);
      m[first.0, first.1] := Filled(bit);
      m[second.0, second.1] := Filled(bit);
      forall r, c | 0 <= r < size && 0 <= c < size
        ensures m[r, c] == AfterFormat(old(m[r, c]), (r, c), size, formatBits, i + 1)
      {
        AfterFormatStep(old(m[r, c]), (r, c), size, formatBits, i);
      }
      i := i + 1;
    }
  }
}
