/** The interpreter's multiplications, its compare flags, and the branches that read them. */
module Cpu {
  import opened Words

  // ----- words as numbers -----

  // `static_cast<uint32_t>(x)`.
  function Low(x: nat): (l: nat)
    ensures l <= 0xFFFF_FFFF
  {
    x % 0x1_0000_0000
  }

  // `x >> 32`.
  function High(x: nat): nat {
    x / 0x1_0000_0000
  }

  // A 64-bit word read as two's complement.
  function Int64(x: u64): (v: int)
    ensures -0x8000_0000_0000_0000 <= v <= 0x7FFF_FFFF_FFFF_FFFF
  {
    if x < 0x8000_0000_0000_0000 then x else x - 0x1_0000_0000_0000_0000
  }

  // The word that holds `v`: conversion to `uint64_t`.
  function Word64(v: int): u64 {
    v % 0x1_0000_0000_0000_0000
  }

  predicate FitsSigned(v: int) {
    -0x8000_0000_0000_0000 <= v <= 0x7FFF_FFFF_FFFF_FFFF
  }

  lemma Int64OfWord(v: int)
    requires FitsSigned(v)
    ensures Int64(Word64(v)) == v
  {
  }

  // ----- portable 64 x 64 -> 128 multiplication -----

  const HALF: nat := 32

  function Carry(p0: nat, p1: nat, p2: nat): nat {
    High(p0) + Low(p1) + Low(p2)
  }

  function LowWord(p0: nat, cy: nat): nat {
    Or(Low(p0), Shl(Low(cy), HALF))
  }

  // The halves do not overlap.
  lemma LowWordIsSum(p0: nat, cy: nat)
    ensures LowWord(p0, cy) == Low(p0) + Low(cy) * 0x1_0000_0000
  {
    Pow2Sizes();
    OrDisjoint(Low(p0), Low(cy), HALF);
    ShlIsProduct(Low(cy), HALF);
  }

  function HighWord(p1: nat, p2: nat, p3: nat, cy: nat): nat {
    p3 + High(p1) + High(p2) + High(cy)
  }

  method JoinLow(p0: nat, cy: nat) returns (lo: u64)
    ensures lo == Low(p0) + Low(cy) * 0x1_0000_0000
  {
    LowWordIsSum(p0, cy);
    lo := LowWord(p0, cy);
  }

  /** The multiplication as the source writes it, where every 64-bit result wraps around. */
  method Mul128U(a: u64, b: u64) returns (hi: u64, lo: u64)
    ensures hi * 0x1_0000_0000_0000_0000 + lo == a * b
  {
    var aLo, aHi := Low(a), High(a);
    var bLo, bHi := Low(b), High(b);
    var p0 := Word64(aLo * bLo);
    var p1 := Word64(aLo * bHi);
    var p2 := Word64(aHi * bLo);
    var p3 := Word64(aHi * bHi);
    PartialProduct(aLo, bLo); PartialProduct(aLo, bHi); PartialProduct(aHi, bLo); PartialProduct(aHi, bHi);
    var cy := Word64(Carry(p0, p1, p2));
    CarryFits(p0, p1, p2);
    Reassemble(p0, p1, p2, p3);
    SplitProduct(aLo, aHi, bLo, bHi);
    lo := JoinLow(p0, cy);
    HighFits(HighWord(p1, p2, p3, cy), lo, a, b);
    hi := Word64(HighWord(p1, p2, p3, cy));
  }

  lemma MulMono(x: nat, y: nat, z: nat)
    requires y <= z
    ensures x * y <= x * z
  {
    assert x * z == x * y + x * (z - y);
  }

  /** A product of two 32-bit halves does not wrap. */
  lemma PartialProduct(x: nat, y: nat)
    requires x <= 0xFFFF_FFFF && y <= 0xFFFF_FFFF
    ensures Word64(x * y) == x * y <= 0xFFFF_FFFE_0000_0001
  {
    MulMono(x, y, 0xFFFF_FFFF);
  }

  /** The middle column does not wrap. */
  lemma CarryFits(p0: u64, p1: u64, p2: u64)
    ensures Word64(Carry(p0, p1, p2)) == Carry(p0, p1, p2)
  {
  }

  lemma SplitProduct(aLo: nat, aHi: nat, bLo: nat, bHi: nat)
    ensures (aHi * 0x1_0000_0000 + aLo) * (bHi * 0x1_0000_0000 + bLo) ==
      (aHi * bHi) * 0x1_0000_0000_0000_0000 + (aLo * bHi + aHi * bLo) * 0x1_0000_0000 + aLo * bLo
  {
    var m := 0x1_0000_0000;
    assert (aHi * m + aLo) * (bHi * m + bLo) == (aHi * m) * (bHi * m + bLo) + aLo * (bHi * m + bLo);
    assert (aHi * m) * (bHi * m + bLo) == (aHi * m) * (bHi * m) + (aHi * m) * bLo;
    assert aLo * (bHi * m + bLo) == aLo * (bHi * m) + aLo * bLo;
    Shuffle(aHi, bHi); Shuffle1(aHi, bLo); Shuffle1(bHi, aLo);
  }

  lemma Shuffle(x: nat, y: nat)
    ensures (x * 0x1_0000_0000) * (y * 0x1_0000_0000) == (x * y) * 0x1_0000_0000_0000_0000
  {
  }

  lemma Shuffle1(x: nat, y: nat)
    ensures (x * 0x1_0000_0000) * y == (x * y) * 0x1_0000_0000 == y * (x * 0x1_0000_0000)
  {
  }

  // Adding up the columns gives back the sum of the partial products.
  lemma Reassemble(p0: nat, p1: nat, p2: nat, p3: nat)
    ensures var cy := Carry(p0, p1, p2);
      HighWord(p1, p2, p3, cy) * 0x1_0000_0000_0000_0000 + (Low(p0) + Low(cy) * 0x1_0000_0000) ==
      p3 * 0x1_0000_0000_0000_0000 + (p1 + p2) * 0x1_0000_0000 + p0
  {
  }

  /** The high word does not wrap either. */
  lemma HighFits(hi: nat, lo: nat, a: u64, b: u64)
    requires hi * 0x1_0000_0000_0000_0000 + lo == a * b
    ensures Word64(hi) == hi
  {
    MulMono(a, b, 0xFFFF_FFFF_FFFF_FFFF);
  }

  // ----- signed product -----

  function Sub64(x: u64, y: u64): u64 {
    if x >= y then x - y else x - y + 0x1_0000_0000_0000_0000
  }

  function Add64(x: u64, y: u64): u64 {
    if x + y < 0x1_0000_0000_0000_0000 then x + y else x + y - 0x1_0000_0000_0000_0000
  }

  /** The signed correction of the unsigned product. */
  method Mul128S(a: u64, b: u64) returns (hi: u64, lo: u64)
    ensures Int64(hi) * 0x1_0000_0000_0000_0000 + lo == Int64(a) * Int64(b)
  {
    var uHi, uLo := Mul128U(a, b);
    hi, lo := uHi, uLo;
    if Int64(a) < 0 { hi := Sub64(hi, b); }
    if Int64(b) < 0 { hi := Sub64(hi, a); }
    SignedCorrection(a, b, uHi, lo, hi);
  }

  lemma SignedCorrection(a: u64, b: u64, u: u64, lo: u64, hi: u64)
    requires u * 0x1_0000_0000_0000_0000 + lo == a * b
    requires var m := if Int64(a) < 0 then Sub64(u, b) else u;
      hi == if Int64(b) < 0 then Sub64(m, a) else m
    ensures Int64(hi) * 0x1_0000_0000_0000_0000 + lo == Int64(a) * Int64(b)
  {
    SignedExpansion(a, b);
    var x, y := if Int64(a) < 0 then b else 0, if Int64(b) < 0 then a else 0;
    var c := if Int64(a) < 0 && Int64(b) < 0 then 1 else 0;
    var t := u - x - y + c * 0x1_0000_0000_0000_0000;
    assert Int64(a) * Int64(b) == t * 0x1_0000_0000_0000_0000 + lo;
    SignedRange(Int64(a), Int64(b), t, lo);
  }

  lemma SignedExpansion(a: u64, b: u64)
    ensures var x, y := if Int64(a) < 0 then b else 0, if Int64(b) < 0 then a else 0;
      var c := if Int64(a) < 0 && Int64(b) < 0 then 1 else 0;
      Int64(a) * Int64(b) ==
      a * b - (x + y) * 0x1_0000_0000_0000_0000 + c * 0x1_0000_0000_0000_0000_0000_0000_0000_0000
  {
    var m := 0x1_0000_0000_0000_0000;
    assert (a - m) * b == a * b - m * b;
    assert a * (b - m) == a * b - a * m;
    assert (a - m) * (b - m) == (a - m) * b - (a - m) * m;
  }

  // The high half of a signed product fits in 64 signed bits.
  lemma SignedRange(p: int, q: int, t: int, lo: u64)
    requires FitsSigned(p) && FitsSigned(q) && p * q == t * 0x1_0000_0000_0000_0000 + lo
    ensures FitsSigned(t)
  {
    AbsoluteProduct(p, q);
  }

  lemma AbsoluteProduct(p: int, q: int)
    requires FitsSigned(p) && FitsSigned(q)
    ensures -0x4000_0000_0000_0000_0000_0000_0000_0000 <= p * q <= 0x4000_0000_0000_0000_0000_0000_0000_0000
  {
    var x, y := if p < 0 then -p else p, if q < 0 then -q else q;
    MulMono(x, y, 0x8000_0000_0000_0000);
    assert p * q == x * y || p * q == -(x * y) by { Signs(p, q); }
  }

  lemma Signs(p: int, q: int)
    ensures (-p) * q == -(p * q) && p * (-q) == -(p * q) && (-p) * (-q) == p * q
  {
  }

  /** The overflow test of IMUL (the high half differs from the sign of the low half) holds exactly
      when the product does not fit in 64 signed bits; when it fits the low half is the product. */
  lemma OverflowIff(hi: u64, lo: u64, p: int)
    requires Int64(hi) * 0x1_0000_0000_0000_0000 + lo == p
    ensures Int64(hi) != (if Int64(lo) < 0 then -1 else 0) <==> !FitsSigned(p)
    ensures FitsSigned(p) ==> Int64(lo) == p
  {
  }

  // ----- flags -----

  // Positions of the status flags in RFLAGS.
  const CF: nat := 0
  const PF: nat := 2
  const ZF: nat := 6
  const SF: nat := 7
  const OF: nat := 11

  const WORD_BITS: nat := 64

  datatype Flags = Flags(cf: bool, pf: bool, zf: bool, sf: bool, of: bool)

  function ReadFlags(rflags: u64): Flags {
    Flags(Digit(rflags, CF), Digit(rflags, PF), Digit(rflags, ZF), Digit(rflags, SF), Digit(rflags, OF))
  }

  /** Where the flags are: bits 0, 2, 6, 7 and 11. */
  lemma FlagPlaces(w: u64)
    ensures var f := ReadFlags(w);
      && (f.cf <==> w % 2 == 1) && (f.pf <==> w / 4 % 2 == 1) && (f.zf <==> w / 64 % 2 == 1)
      && (f.sf <==> w / 128 % 2 == 1) && (f.of <==> w / 2048 % 2 == 1)
  {
    ShrIsDivision(w, CF); ShrIsDivision(w, PF); ShrIsDivision(w, ZF); ShrIsDivision(w, SF); ShrIsDivision(w, OF);
    SmallPowers();
  }

  lemma SmallPowers()
    ensures Pow2(0) == 1 && Pow2(2) == 4 && Pow2(6) == 64 && Pow2(7) == 128 && Pow2(11) == 2048
  {
  }

  // The remaining bits are the same.
  ghost predicate SameOthers(before: u64, after: u64) {
    forall i: nat :: i !in {CF, PF, ZF, SF, OF} ==> Digit(after, i) == Digit(before, i)
  }

  // `~x`.
  function Not64(x: u64): u64 {
    0xFFFF_FFFF_FFFF_FFFF - x
  }

  lemma NotDigit(x: u64, i: nat)
    requires i < WORD_BITS
    ensures Digit(Not64(x), i) <==> !Digit(x, i)
  {
    Pow2Sizes();
    ComplementDigit(x, WORD_BITS, i);
  }

  lemma {:induction false} DigitsEnd(x: nat, n: nat, i: nat)
    requires x < Pow2(n) && n <= i
    ensures !Digit(x, i)
    decreases n
  {
    if n > 0 {
      DigitsEnd(x / 2, n - 1, i - 1);
    } else {
      ShrIsDivision(0, i);
    }
  }

  lemma MaskFits(bit: nat)
    requires bit < WORD_BITS
    ensures Pow2(bit) < U64
  {
    Pow2Sizes();
    Pow2Grows(bit, WORD_BITS);
  }

  lemma {:induction false} Pow2Grows(m: nat, n: nat)
    requires m < n
    ensures Pow2(m) < Pow2(n)
    decreases n
  {
    if m < n - 1 { Pow2Grows(m, n - 1); }
  }

  // `set_flag`, with the mask `1 << bit`.
  function WithFlag(w: u64, bit: nat, v: bool): (r: u64)
    requires bit < WORD_BITS
  {
    MaskFits(bit);
    Pow2Sizes();
    OrBound(w, Pow2(bit), WORD_BITS);
    AndBound(w, Not64(Pow2(bit)));
    if v then Or(w, Pow2(bit)) else And(w, Not64(Pow2(bit)))
  }

  /** Setting a flag changes that bit and no other. */
  lemma WithFlagDigit(w: u64, bit: nat, v: bool, i: nat)
    requires bit < WORD_BITS
    ensures Digit(WithFlag(w, bit, v), i) <==> if i == bit then v else Digit(w, i)
  {
    MaskFits(bit);
    PowDigit(bit, i);
    if v {
      OrDigit(w, Pow2(bit), i);
    } else {
      AndDigit(w, Not64(Pow2(bit)), i);
      if i < WORD_BITS {
        NotDigit(Pow2(bit), i);
      } else {
        Pow2Sizes();
        DigitsEnd(w, WORD_BITS, i);
      }
    }
  }

  const BYTE_BITS: nat := 8

  // How many of the n low digits are ones.
  function Ones(w: nat, n: nat): nat {
    if n == 0 then 0 else Ones(w, n - 1) + (if Digit(w, n - 1) then 1 else 0)
  }

  // `v ^ (v >> k)`.
  function Fold(v: nat, k: nat): nat {
    Xor(v, Shr(v, k))
  }

  lemma {:induction false} OnesXor(a: nat, b: nat, n: nat)
    ensures Ones(Xor(a, b), n) % 2 == (Ones(a, n) + Ones(b, n)) % 2
    decreases n
  {
    if n > 0 {
      OnesXor(a, b, n - 1);
      XorDigit(a, b, n - 1);
    }
  }

  lemma {:induction false} OnesSplit(v: nat, k: nat, n: nat)
    ensures Ones(v, k + n) == Ones(v, k) + Ones(Shr(v, k), n)
    decreases n
  {
    if n > 0 {
      OnesSplit(v, k, n - 1);
      ShrShr(v, k, n - 1);
    }
  }

  /** Folding the upper k of 2k digits onto the lower k keeps the parity of their number of ones. */
  lemma FoldKeepsParity(v: nat, k: nat)
    ensures Ones(Fold(v, k), k) % 2 == Ones(v, k + k) % 2
  {
    OnesXor(v, Shr(v, k), k);
    OnesSplit(v, k, k);
  }

  method Parity(result: u64) returns (even: bool)
    ensures even <==> Ones(result % 256, BYTE_BITS) % 2 == 0
  {
    var v := result % 256;
    FoldKeepsParity(v, 4);
    v := Fold(v, 4);
    FoldKeepsParity(v, 2);
    v := Fold(v, 2);
    FoldKeepsParity(v, 1);
    v := Fold(v, 1);
    assert Ones(v, 1) == v % 2;
    even := v % 2 == 0;
  }

  // ----- operand widths -----

  predicate Width(bits: nat) {
    bits == 8 || bits == 16 || bits == 32 || bits == WORD_BITS
  }

  // The mask of the source plus one.
  function Modulus(bits: nat): (m: nat)
    requires Width(bits)
  {
    Pow2(bits)
  }

  // `1 << (bits - 1)`.
  function Half(bits: nat): (h: nat)
    requires Width(bits)
    ensures h > 0 && Modulus(bits) == 2 * h
  {
    Pow2(bits - 1)
  }

  // `x & mask`.
  function Masked(x: u64, bits: nat): (r: u64)
    requires Width(bits)
    ensures r < Modulus(bits)
  {
    AndBound(x, Modulus(bits) - 1);
    MaskedIsRemainder(x, bits);
    And(x, Modulus(bits) - 1)
  }

  /** Masking is the remainder modulo 2^bits. */
  lemma MaskedIsRemainder(x: u64, bits: nat)
    requires Width(bits)
    ensures And(x, Modulus(bits) - 1) == x % Modulus(bits) < Modulus(bits)
  {
    AndOnes(x, bits);
  }

  lemma {:induction false} Pow2Sum(m: nat, n: nat)
    ensures Pow2(m + n) == Pow2(m) * Pow2(n)
    decreases m
  {
    if m > 0 { Pow2Sum(m - 1, n); }
  }

  // How often 2^bits goes into 2^64.
  function Copies(bits: nat): nat
    requires Width(bits)
  {
    Pow2(WORD_BITS - bits)
  }

  lemma ModulusDivides(bits: nat)
    requires Width(bits)
    ensures U64 == Modulus(bits) * Copies(bits) && Modulus(bits) <= U64
  {
    Pow2Sizes();
    Pow2Sum(WORD_BITS - bits, bits);
    MulMono(Modulus(bits), 1, Copies(bits));
  }

  lemma ModulusValues()
    ensures Modulus(8) == 0x100 && Modulus(16) == 0x1_0000 && Modulus(32) == U32 && Modulus(WORD_BITS) == U64
  {
    Pow2Sizes();
    Pow2Four(8); Pow2Four(12);
  }

  lemma {:induction false} AndOnes(x: nat, n: nat)
    ensures And(x, Pow2(n) - 1) == x % Pow2(n)
    decreases n
  {
    if n > 0 {
      AndOnes(x / 2, n - 1);
      HalfRemainder(x, Pow2(n - 1));
    }
  }

  lemma HalfRemainder(x: nat, h: nat)
    requires h > 0
    ensures x % (2 * h) == x % 2 + 2 * ((x / 2) % h)
  {
    var q, r := (x / 2) / h, (x / 2) % h;
    assert x == 2 * (h * q + r) + x % 2 == (2 * h) * q + (2 * r + x % 2) by { Distribute(2, h, q, r); }
    RemainderUnique(x, 2 * h, q, 2 * r + x % 2);
  }

  lemma NegativeProduct(m: nat, q: int)
    requires q < 0
    ensures m * q + m <= 0
  {
    assert m * q + m == m * (q + 1);
    MulMono(m, 0, -(q + 1));
    assert m * (q + 1) == -(m * -(q + 1));
  }

  lemma RemainderUnique(x: nat, m: nat, q: int, r: nat)
    requires r < m && x == m * q + r
    ensures x % m == r
  {
    if q < 0 { NegativeProduct(m, q); }
    QuotientUnique(x, m, q, r);
    assert x == m * (x / m) + x % m;
  }

  // The low `bits` bits of a word read as two's complement.
  function Signed(x: u64, bits: nat): int
    requires Width(bits)
  {
    Centred(Masked(x, bits), Half(bits))
  }

  // A residue modulo 2h as a number from -h to h - 1.
  function Centred(v: nat, h: nat): int {
    if v < h then v else v - 2 * h
  }

  predicate Within(v: int, h: nat) {
    0 <= v + h < 2 * h
  }

  predicate Fits(v: int, bits: nat)
    requires Width(bits)
  {
    Within(v, Half(bits))
  }

  lemma MaskedSmall(x: u64, bits: nat)
    requires Width(bits) && x < Modulus(bits)
    ensures Masked(x, bits) == x
  {
    MaskedIsRemainder(x, bits);
    RemainderUnique(x, Modulus(bits), 0, x);
  }

  lemma SignedWord(x: u64)
    ensures Masked(x, WORD_BITS) == x && Signed(x, WORD_BITS) == Int64(x)
  {
    ModulusValues();
    MaskedSmall(x, WORD_BITS);
  }

  lemma FitsWord(v: int)
    ensures Fits(v, WORD_BITS) <==> FitsSigned(v)
  {
    ModulusValues();
  }

  // The bit `(x >> (bits - 1)) & 1`.
  lemma SignDigit(x: u64, bits: nat)
    requires Width(bits)
    ensures Digit(x, bits - 1) <==> Masked(x, bits) >= Half(bits)
  {
    ShrIsDivision(x, bits - 1);
    HalfDigit(x, Half(bits));
    MaskedIsRemainder(x, bits);
  }

  lemma HalfDigit(x: nat, h: nat)
    requires h > 0
    ensures (x / h) % 2 == 1 <==> x % (2 * h) >= h
  {
    var q, r := x / h, x % h;
    var k, b := q / 2, q % 2;
    assert x == h * (2 * k + b) + r;
    assert h * (2 * k + b) == (2 * h) * k + h * b;
    RemainderUnique(x, 2 * h, k, h * b + r);
  }

  // A wrapped difference, cut to the width, is the difference of the cut operands, wrapped there.
  lemma MaskedSub(a: u64, b: u64, bits: nat)
    requires Width(bits)
    ensures var x, y, m := Masked(a, bits), Masked(b, bits), Modulus(bits);
      Masked(Sub64(a, b), bits) == if x >= y then x - y else x - y + m
  {
    MaskedIsRemainder(a, bits); MaskedIsRemainder(b, bits); MaskedIsRemainder(Sub64(a, b), bits);
    ModulusDivides(bits);
    WrappedSub(a, b, Modulus(bits), Copies(bits));
  }

  lemma WrappedSub(a: u64, b: u64, m: nat, copies: nat)
    requires m > 0 && U64 == m * copies
    ensures Sub64(a, b) % m == if a % m >= b % m then a % m - b % m else a % m - b % m + m
  {
    if a >= b {
      assert Sub64(a, b) == a - b + m * 0;
      ResidueSub(a, b, Sub64(a, b), m, 0);
    } else {
      ResidueSub(a, b, Sub64(a, b), m, copies);
    }
  }

  lemma MaskedAdd(a: u64, b: u64, bits: nat)
    requires Width(bits)
    ensures var x, y, m := Masked(a, bits), Masked(b, bits), Modulus(bits);
      Masked(Add64(a, b), bits) == if x + y < m then x + y else x + y - m
  {
    MaskedIsRemainder(a, bits); MaskedIsRemainder(b, bits); MaskedIsRemainder(Add64(a, b), bits);
    ModulusDivides(bits);
    WrappedAdd(a, b, Modulus(bits), Copies(bits));
  }

  lemma WrappedAdd(a: u64, b: u64, m: nat, copies: nat)
    requires m > 0 && U64 == m * copies
    ensures Add64(a, b) % m == if a % m + b % m < m then a % m + b % m else a % m + b % m - m
  {
    if a + b < U64 {
      assert Add64(a, b) == a + b - m * 0;
      ResidueAdd(a, b, Add64(a, b), m, 0);
    } else {
      ResidueAdd(a, b, Add64(a, b), m, copies);
    }
  }

  lemma ResidueSub(a: nat, b: nat, t: nat, m: nat, k: nat)
    requires m > 0 && t == a - b + m * k
    ensures t % m == if a % m >= b % m then a % m - b % m else a % m - b % m + m
  {
    var p, q, x, y := a / m, b / m, a % m, b % m;
    var c := if x >= y then 0 else 1;
    ResidueSplit(a, m); ResidueSplit(b, m);
    CollectDifference(m, p, q, k, c);
    RemainderUnique(t, m, p - q + k - c, x - y + m * c);
  }

  lemma ResidueAdd(a: nat, b: nat, t: nat, m: nat, k: nat)
    requires m > 0 && t == a + b - m * k
    ensures t % m == if a % m + b % m < m then a % m + b % m else a % m + b % m - m
  {
    var p, q, x, y := a / m, b / m, a % m, b % m;
    var c := if x + y < m then 0 else 1;
    ResidueSplit(a, m); ResidueSplit(b, m);
    CollectDifference(m, p, 0 - q, 0 - k, 0 - c);
    RemainderUnique(t, m, p + q - k + c, x + y - m * c);
  }

  lemma ResidueSplit(a: nat, m: nat)
    requires m > 0
    ensures a == m * (a / m) + a % m
  {
  }

  lemma CollectDifference(m: int, p: int, q: int, k: int, c: int)
    ensures m * (p - q + k - c) == m * p - m * q + m * k - m * c
  {
  }

  // ----- the flags of an addition or subtraction -----

  // The result as the callers pass it.
  function Wrapped(a: u64, b: u64, isSub: bool): u64 {
    if isSub then Sub64(a, b) else Add64(a, b)
  }

  // What the flags should mean for operands of the given width.
  ghost function ArithFlags(a: u64, b: u64, isSub: bool, bits: nat): Flags
    requires Width(bits)
  {
    var x, y, r := Masked(a, bits), Masked(b, bits), Masked(Wrapped(a, b, isSub), bits);
    var exact := if isSub then Signed(a, bits) - Signed(b, bits) else Signed(a, bits) + Signed(b, bits);
    Flags(if isSub then x < y else x + y >= Modulus(bits),
          Ones(r % 256, BYTE_BITS) % 2 == 0, r == 0, Signed(r, bits) < 0, !Fits(exact, bits))
  }

  // The overflow bits of the source; r is the masked result.
  predicate SubBit(a: u64, b: u64, r: u64, bits: nat)
    requires Width(bits)
  {
    Digit(And(Xor(a, b), Xor(a, r)), bits - 1)
  }

  predicate AddBit(a: u64, b: u64, r: u64, bits: nat)
    requires Width(bits)
  {
    XorFits(a, b);
    And(And(Not64(Xor(a, b)), Xor(a, r)), Pow2(bits - 1)) != 0
  }

  // What the source computes for the flags.
  function ComputedFlags(a: u64, b: u64, result: u64, isSub: bool, bits: nat): Flags
    requires Width(bits)
  {
    var r := Masked(result, bits);
    Flags(if isSub then Masked(a, bits) < Masked(b, bits) else result > Modulus(bits) - 1,
          Ones(r % 256, BYTE_BITS) % 2 == 0, r == 0, Digit(r, bits - 1),
          if isSub then SubBit(a, b, r, bits) else AddBit(a, b, r, bits))
  }

  lemma XorFits(a: u64, b: u64)
    ensures Xor(a, b) < U64
  {
    Pow2Sizes();
    XorBound(a, b, WORD_BITS);
  }

  // RFLAGS after the five flags have been set.
  function StoreFlags(w: u64, f: Flags): u64 {
    WithFlag(WithFlag(WithFlag(WithFlag(WithFlag(w, ZF, f.zf), SF, f.sf), PF, f.pf), CF, f.cf), OF, f.of)
  }

  lemma StoreDigit(w: u64, f: Flags, i: nat)
    ensures Digit(StoreFlags(w, f), i) <==>
      if i == OF then f.of else if i == CF then f.cf else if i == PF then f.pf
      else if i == SF then f.sf else if i == ZF then f.zf else Digit(w, i)
  {
    var w1 := WithFlag(w, ZF, f.zf);
    var w2 := WithFlag(w1, SF, f.sf);
    var w3 := WithFlag(w2, PF, f.pf);
    var w4 := WithFlag(w3, CF, f.cf);
    WithFlagDigit(w, ZF, f.zf, i);
    WithFlagDigit(w1, SF, f.sf, i);
    WithFlagDigit(w2, PF, f.pf, i);
    WithFlagDigit(w3, CF, f.cf, i);
    WithFlagDigit(w4, OF, f.of, i);
  }

  /** The five flags read back as they were set, and every other bit is as before. */
  lemma StoredFlagsRead(w: u64, f: Flags)
    ensures ReadFlags(StoreFlags(w, f)) == f && SameOthers(w, StoreFlags(w, f))
  {
    StoreDigit(w, f, CF); StoreDigit(w, f, PF); StoreDigit(w, f, ZF); StoreDigit(w, f, SF); StoreDigit(w, f, OF);
    forall i: nat | i !in {CF, PF, ZF, SF, OF}
      ensures Digit(StoreFlags(w, f), i) == Digit(w, i)
    {
      StoreDigit(w, f, i);
    }
  }

  lemma OverflowFlagsRead(w: u64, v: bool)
    ensures var w2 := WithFlag(WithFlag(w, CF, v), OF, v);
      ReadFlags(w2) == ReadFlags(w).(cf := v, of := v) && SameOthers(w, w2)
  {
    var w1 := WithFlag(w, CF, v);
    forall i: nat
      ensures Digit(WithFlag(w1, OF, v), i) <==> if i == CF || i == OF then v else Digit(w, i)
    {
      WithFlagDigit(w, CF, v, i);
      WithFlagDigit(w1, OF, v, i);
    }
  }

  // The signs that the overflow bits compare.
  lemma SignsOfXor(a: u64, b: u64, bits: nat)
    requires Width(bits)
    ensures Digit(Xor(a, b), bits - 1) <==> (Masked(a, bits) >= Half(bits)) != (Masked(b, bits) >= Half(bits))
  {
    XorDigit(a, b, bits - 1);
    SignDigit(a, bits); SignDigit(b, bits);
  }

  // Cutting a word once more changes nothing.
  lemma MaskedTwice(x: u64, bits: nat)
    requires Width(bits)
    ensures Masked(Masked(x, bits), bits) == Masked(x, bits)
  {
    MaskedSmall(Masked(x, bits), bits);
  }

  lemma SubSigns(a: u64, b: u64, r: u64, bits: nat)
    requires Width(bits)
    ensures SubBit(a, b, r, bits) <==>
      ((Masked(a, bits) >= Half(bits)) != (Masked(b, bits) >= Half(bits)) &&
       (Masked(a, bits) >= Half(bits)) != (Masked(r, bits) >= Half(bits)))
  {
    AndDigit(Xor(a, b), Xor(a, r), bits - 1);
    SignsOfXor(a, b, bits);
    SignsOfXor(a, r, bits);
  }

  /** The overflow bit of a subtraction: the exact signed difference does not fit. */
  lemma SubOverflow(a: u64, b: u64, bits: nat)
    requires Width(bits)
    ensures SubBit(a, b, Masked(Sub64(a, b), bits), bits) <==> !Fits(Signed(a, bits) - Signed(b, bits), bits)
  {
    var r := Masked(Sub64(a, b), bits);
    SubSigns(a, b, r, bits);
    MaskedTwice(Sub64(a, b), bits);
    SubFits(a, b, bits);
  }

  predicate Negative(x: u64, bits: nat)
    requires Width(bits)
  {
    Masked(x, bits) >= Half(bits)
  }

  lemma SubFits(a: u64, b: u64, bits: nat)
    requires Width(bits)
    ensures (Negative(a, bits) != Negative(b, bits) && Negative(a, bits) != Negative(Sub64(a, b), bits)) <==>
      !Fits(Signed(a, bits) - Signed(b, bits), bits)
  {
    MaskedSub(a, b, bits);
    DifferenceFits(Masked(a, bits), Masked(b, bits), Masked(Sub64(a, b), bits), Half(bits));
  }

  lemma AddFits(a: u64, b: u64, bits: nat)
    requires Width(bits)
    ensures (Negative(a, bits) == Negative(b, bits) && Negative(a, bits) != Negative(Add64(a, b), bits)) <==>
      !Fits(Signed(a, bits) + Signed(b, bits), bits)
  {
    MaskedAdd(a, b, bits);
    SumFits(Masked(a, bits), Masked(b, bits), Masked(Add64(a, b), bits), Half(bits));
  }

  // The same of residues modulo 2h: x - y leaves the signed range exactly when the signs of x and y
  // differ and the sign of x is lost.
  lemma DifferenceFits(x: nat, y: nat, r: nat, h: nat)
    requires x < 2 * h && y < 2 * h && r == if x >= y then x - y else x - y + 2 * h
    ensures (x >= h) != (y >= h) && (x >= h) != (r >= h) <==> !Within(Centred(x, h) - Centred(y, h), h)
  {
  }

  lemma SumFits(x: nat, y: nat, r: nat, h: nat)
    requires x < 2 * h && y < 2 * h && r == if x + y < 2 * h then x + y else x + y - 2 * h
    ensures (x >= h) == (y >= h) && (x >= h) != (r >= h) <==> !Within(Centred(x, h) + Centred(y, h), h)
  {
  }

  lemma AddSigns(a: u64, b: u64, r: u64, bits: nat)
    requires Width(bits)
    ensures AddBit(a, b, r, bits) <==>
      ((Masked(a, bits) >= Half(bits)) == (Masked(b, bits) >= Half(bits)) &&
       (Masked(a, bits) >= Half(bits)) != (Masked(r, bits) >= Half(bits)))
  {
    XorFits(a, b);
    SignBit(Not64(Xor(a, b)), Xor(a, r), bits);
    NotDigit(Xor(a, b), bits - 1);
    SignsOfXor(a, b, bits);
    SignsOfXor(a, r, bits);
  }

  /** The overflow bit of an addition: the exact signed sum does not fit. */
  lemma AddOverflow(a: u64, b: u64, bits: nat)
    requires Width(bits)
    ensures AddBit(a, b, Masked(Add64(a, b), bits), bits) <==> !Fits(Signed(a, bits) + Signed(b, bits), bits)
  {
    var r := Masked(Add64(a, b), bits);
    AddSigns(a, b, r, bits);
    MaskedTwice(Add64(a, b), bits);
    AddFits(a, b, bits);
  }

  lemma SignBit(x: nat, y: nat, bits: nat)
    requires bits > 0
    ensures And(And(x, y), Pow2(bits - 1)) != 0 <==> Digit(x, bits - 1) && Digit(y, bits - 1)
  {
    AndOneDigit(And(x, y), bits - 1);
    AndDigit(x, y, bits - 1);
  }

  /** Every flag but the carry of an addition means what it should, at every width. */
  lemma ComputedFlagsMean(a: u64, b: u64, isSub: bool, bits: nat)
    requires Width(bits)
    ensures var f := ComputedFlags(a, b, Wrapped(a, b, isSub), isSub, bits);
      f == ArithFlags(a, b, isSub, bits).(cf := f.cf) && (isSub ==> f == ArithFlags(a, b, isSub, bits))
  {
    if isSub { SubOverflow(a, b, bits); } else { AddOverflow(a, b, bits); }
    SignDigit(Masked(Wrapped(a, b, isSub), bits), bits);
  }

  // RFLAGS after the flags of an addition or subtraction have been updated.
  function FlagsAfter(w: u64, a: u64, b: u64, result: u64, isSub: bool, bits: nat): u64
    requires Width(bits)
  {
    StoreFlags(w, ComputedFlags(a, b, result, isSub, bits))
  }

  /** What one update leaves: the five flags as meant, except that the carry of an addition compares the
      result with the mask; every other bit as before. */
  lemma FlagsAfterMean(w: u64, a: u64, b: u64, result: u64, isSub: bool, bits: nat)
    requires Width(bits)
    ensures var after := FlagsAfter(w, a, b, result, isSub, bits);
      && SameOthers(w, after)
      && (result == Wrapped(a, b, isSub) ==>
            ReadFlags(after) == ArithFlags(a, b, isSub, bits).(
              cf := if isSub then Masked(a, bits) < Masked(b, bits) else result >= Modulus(bits)))
  {
    StoredFlagsRead(w, ComputedFlags(a, b, result, isSub, bits));
    if result == Wrapped(a, b, isSub) { ComputedFlagsMean(a, b, isSub, bits); }
  }

  // The carry of an addition of operands of the width: the sum as the callers pass it, against the mask.
  lemma AddCarry(a: u64, b: u64, bits: nat)
    requires Width(bits) && a < Modulus(bits) && b < Modulus(bits)
    ensures var f := ComputedFlags(a, b, Add64(a, b), false, bits);
      (f.cf <==> a + b >= Modulus(bits)) <==> bits < WORD_BITS || a + b < U64
    ensures ArithFlags(a, b, false, bits).cf <==> a + b >= Modulus(bits)
  {
    ModulusValues();
    MaskedSmall(a, bits);
    MaskedSmall(b, bits);
  }

  /** After a full-width operation: the carry is the borrow of a subtraction, and never set by an addition. */
  lemma FullWidthFlags(w: u64, a: u64, b: u64, isSub: bool)
    ensures var after := FlagsAfter(w, a, b, Wrapped(a, b, isSub), isSub, WORD_BITS);
      && ReadFlags(after) == ArithFlags(a, b, isSub, WORD_BITS).(cf := isSub && a < b)
      && SameOthers(w, after)
  {
    StoredFlagsRead(w, ComputedFlags(a, b, Wrapped(a, b, isSub), isSub, WORD_BITS));
    ComputedFlagsMean(a, b, isSub, WORD_BITS);
    ModulusValues();
    SignedWord(a); SignedWord(b);
  }

  /** For operands of the width RFLAGS ends up right if and only if the operation is a subtraction,
      narrower than 64 bits, or its unsigned sum does not wrap. */
  lemma FlagsRightIff(w: u64, a: u64, b: u64, isSub: bool, bits: nat)
    requires Width(bits) && a < Modulus(bits) && b < Modulus(bits)
    ensures ReadFlags(FlagsAfter(w, a, b, Wrapped(a, b, isSub), isSub, bits)) == ArithFlags(a, b, isSub, bits) <==>
      isSub || bits < WORD_BITS || a + b < U64
  {
    StoredFlagsRead(w, ComputedFlags(a, b, Wrapped(a, b, isSub), isSub, bits));
    ComputedFlagsMean(a, b, isSub, bits);
    AddCarry(a, b, bits);
  }

  /** The carry bit of RFLAGS after a 64-bit addition tells whether the unsigned sum wrapped if and
      only if it did not: JB is never taken there and JAE always. */
  lemma AddCarryIff(w: u64, a: u64, b: u64)
    ensures var after := FlagsAfter(w, a, b, Add64(a, b), false, WORD_BITS);
      && ((Digit(after, CF) <==> a + b >= U64) <==> a + b < U64)
      && !Taken(0x2, ReadFlags(after)) && Taken(0x3, ReadFlags(after))
  {
    ModulusValues();
    StoredFlagsRead(w, ComputedFlags(a, b, Add64(a, b), false, WORD_BITS));
  }

  /** Adding one to the largest word leaves zero and no carry. */
  lemma AddCarryLost(w: u64)
    ensures var a, b := 0xFFFF_FFFF_FFFF_FFFF, 1;
      var f := ReadFlags(FlagsAfter(w, a, b, Add64(a, b), false, WORD_BITS));
      f.zf && !f.cf && ArithFlags(a, b, false, WORD_BITS).cf
  {
    var a: u64, b: u64 := 0xFFFF_FFFF_FFFF_FFFF, 1;
    ModulusValues();
    SignedWord(0);
    StoredFlagsRead(w, ComputedFlags(a, b, Add64(a, b), false, WORD_BITS));
    AddCarry(a, b, WORD_BITS);
  }

  // ----- conditions -----

  // The table both forms of the conditional jump use.
  function Taken(cc: nat, f: Flags): bool {
    match cc
    case 0x0 => f.of
    case 0x1 => !f.of
    case 0x2 => f.cf
    case 0x3 => !f.cf
    case 0x4 => f.zf
    case 0x5 => !f.zf
    case 0x6 => f.cf || f.zf
    case 0x7 => !f.cf && !f.zf
    case 0x8 => f.sf
    case 0x9 => !f.sf
    case 0xA => f.pf
    case 0xB => !f.pf
    case 0xC => f.sf != f.of
    case 0xD => f.sf == f.of
    case 0xE => f.zf || f.sf != f.of
    case 0xF => !f.zf && f.sf == f.of
    case _ => false
  }

  // What each condition asks of two compared words, independently of the flags.
  predicate Relation(cc: nat, a: u64, b: u64) {
    match cc
    case 0x0 => !FitsSigned(Int64(a) - Int64(b))
    case 0x1 => FitsSigned(Int64(a) - Int64(b))
    case 0x2 => a < b
    case 0x3 => a >= b
    case 0x4 => a == b
    case 0x5 => a != b
    case 0x6 => a <= b
    case 0x7 => a > b
    case 0x8 => Int64(Sub64(a, b)) < 0
    case 0x9 => Int64(Sub64(a, b)) >= 0
    case 0xA => Ones(Sub64(a, b) % 256, BYTE_BITS) % 2 == 0
    case 0xB => Ones(Sub64(a, b) % 256, BYTE_BITS) % 2 == 1
    case 0xC => Int64(a) < Int64(b)
    case 0xD => Int64(a) >= Int64(b)
    case 0xE => Int64(a) <= Int64(b)
    case 0xF => Int64(a) > Int64(b)
    case _ => false
  }

  // The flags of a full-width comparison, in terms of the words.
  lemma CompareFlags(a: u64, b: u64)
    ensures ArithFlags(a, b, true, WORD_BITS) == Flags(
      a < b, Ones(Sub64(a, b) % 256, BYTE_BITS) % 2 == 0, a == b, Int64(Sub64(a, b)) < 0,
      !FitsSigned(Int64(a) - Int64(b)))
  {
    SignedWord(a); SignedWord(b); SignedWord(Sub64(a, b));
    FitsWord(Int64(a) - Int64(b));
  }

  // The sign of the wrapped difference is wrong exactly on overflow.
  lemma SignAndOverflow(a: u64, b: u64)
    ensures (Int64(Sub64(a, b)) < 0) != !FitsSigned(Int64(a) - Int64(b)) <==> Int64(a) < Int64(b)
    ensures a == b <==> Int64(a) == Int64(b)
  {
  }

  /** After a comparison the conditions decide the order of the two words. */
  lemma CompareThenBranch(cc: nat, a: u64, b: u64)
    ensures Taken(cc, ArithFlags(a, b, true, WORD_BITS)) <==> Relation(cc, a, b)
  {
    CompareFlags(a, b);
    SignAndOverflow(a, b);
  }

  lemma TakenAfterCompare(cc: nat, a: u64, b: u64, f: Flags)
    requires DifferenceFlags(f, a, b)
    ensures Taken(cc, f) <==> Relation(cc, a, b)
  {
    DifferenceFlagsHold(f, a, b);
    CompareThenBranch(cc, a, b);
  }

  /** An odd condition is the negation of its even partner. */
  lemma PartnersNegate(k: nat, f: Flags)
    requires k < 8
    ensures Taken(2 * k + 1, f) <==> !Taken(2 * k, f)
  {
    var cc := 2 * k;
    assert cc in {0x0, 0x2, 0x4, 0x6, 0x8, 0xA, 0xC, 0xE};
  }

  // ----- the register file -----

  const RAX: nat := 0
  const RDX: nat := 2

  // The additions, subtractions and comparisons on registers: between two registers, or between a
  // register and a sign-extended immediate.
  datatype Arith =
    | AddRegRm | SubRegRm | CmpRegRm | CmpRmReg
    | AddRmImm(imm: int) | SubRmImm(imm: int) | CmpRmImm(imm: int)

  // The flags of a 64-bit addition as the interpreter leaves them: no carry, ever.
  ghost predicate SumFlags(f: Flags, a: u64, b: u64) {
    var r := (a + b) % 0x1_0000_0000_0000_0000;
    && !f.cf && (f.zf <==> r == 0) && (f.sf <==> r >= 0x8000_0000_0000_0000)
    && (f.pf <==> Ones(r % 256, BYTE_BITS) % 2 == 0)
    && (f.of <==> !(-0x8000_0000_0000_0000 <= Int64(a) + Int64(b) < 0x8000_0000_0000_0000))
  }

  ghost predicate DifferenceFlags(f: Flags, a: u64, b: u64) {
    var r := (a - b) % 0x1_0000_0000_0000_0000;
    && (f.cf <==> a < b) && (f.zf <==> a == b) && (f.sf <==> r >= 0x8000_0000_0000_0000)
    && (f.pf <==> Ones(r % 256, BYTE_BITS) % 2 == 0)
    && (f.of <==> !(-0x8000_0000_0000_0000 <= Int64(a) - Int64(b) < 0x8000_0000_0000_0000))
  }

  ghost predicate OpFlags(f: Flags, a: u64, b: u64, isSub: bool) {
    if isSub then DifferenceFlags(f, a, b) else SumFlags(f, a, b)
  }

  lemma OpFlagsHold(w: u64, a: u64, b: u64, isSub: bool)
    ensures var after := FlagsAfter(w, a, b, Wrapped(a, b, isSub), isSub, WORD_BITS);
      OpFlags(ReadFlags(after), a, b, isSub) && SameOthers(w, after)
  {
    FullWidthFlags(w, a, b, isSub);
    if isSub {
      CompareFlags(a, b);
      DifferenceFlagsHold(ArithFlags(a, b, true, WORD_BITS), a, b);
    } else {
      SumFlagsHold(a, b);
    }
  }

  lemma WrappedValues(a: u64, b: u64)
    ensures Add64(a, b) == (a + b) % 0x1_0000_0000_0000_0000
    ensures Sub64(a, b) == (a - b) % 0x1_0000_0000_0000_0000
  {
  }

  lemma SumFlagsHold(a: u64, b: u64)
    ensures SumFlags(ArithFlags(a, b, false, WORD_BITS).(cf := false), a, b)
  {
    WrappedValues(a, b);
    SignedWord(a); SignedWord(b); SignedWord(Add64(a, b));
    FitsWord(Int64(a) + Int64(b));
  }

  lemma DifferenceFlagsHold(f: Flags, a: u64, b: u64)
    ensures DifferenceFlags(f, a, b) <==> f == ArithFlags(a, b, true, WORD_BITS)
  {
    WrappedValues(a, b);
    CompareFlags(a, b);
  }

  /** Form by form: the register that changes, its new value, and the flags. */
  ghost predicate Executed(op: Arith, reg: nat, rm: nat, before: seq<u64>, after: seq<u64>, f: Flags)
    requires reg < |before| && rm < |before|
  {
    var x, y := before[reg], before[rm];
    match op
    case AddRegRm => after == before[reg := (x + y) % 0x1_0000_0000_0000_0000] && SumFlags(f, x, y)
    case SubRegRm => after == before[reg := (x - y) % 0x1_0000_0000_0000_0000] && DifferenceFlags(f, x, y)
    case CmpRegRm => after == before && DifferenceFlags(f, x, y)
    case CmpRmReg => after == before && DifferenceFlags(f, y, x)
    case AddRmImm(imm) =>
      after == before[rm := (y + imm) % 0x1_0000_0000_0000_0000] && SumFlags(f, y, imm % 0x1_0000_0000_0000_0000)
    case SubRmImm(imm) =>
      after == before[rm := (y - imm) % 0x1_0000_0000_0000_0000] && DifferenceFlags(f, y, imm % 0x1_0000_0000_0000_0000)
    case CmpRmImm(imm) =>
      after == before && DifferenceFlags(f, y, imm % 0x1_0000_0000_0000_0000)
  }

  class CpuContext {
    const gpr: array<u64>
    var rip: u64
    var rflags: u64

    constructor ()
      ensures Valid() && fresh(gpr) && rip == 0 && rflags == 0
      ensures forall i :: 0 <= i < gpr.Length ==> gpr[i] == 0
    {
      gpr := new u64[16](i => 0);
      rip := 0;
      rflags := 0;
    }

    ghost predicate Valid()
      reads this
    {
      gpr.Length == 16
    }

    method SetFlag(bit: nat, v: bool)
      requires bit < WORD_BITS
      modifies this`rflags
      ensures rflags == WithFlag(old(rflags), bit, v)
    {
      rflags := WithFlag(rflags, bit, v);
    }

    // The carry and overflow flags of a multiplication.
    method SetOverflow(v: bool)
      modifies this`rflags
      ensures ReadFlags(rflags) == ReadFlags(old(rflags)).(cf := v, of := v) && SameOthers(old(rflags), rflags)
    {
      OverflowFlagsRead(rflags, v);
      SetFlag(CF, v);
      SetFlag(OF, v);
    }

    method UpdateFlagsArith(a: u64, b: u64, result: u64, isSub: bool, bits: nat)
      requires Width(bits)
      modifies this`rflags
      ensures rflags == FlagsAfter(old(rflags), a, b, result, isSub, bits)
      ensures SameOthers(old(rflags), rflags)
      ensures result == Wrapped(a, b, isSub) ==>
        ReadFlags(rflags) == ArithFlags(a, b, isSub, bits).(
          cf := if isSub then Masked(a, bits) < Masked(b, bits) else result >= Modulus(bits))
    {
      FlagsAfterMean(rflags, a, b, result, isSub, bits);
      var r := Masked(result, bits);
      SetFlag(ZF, r == 0);
      SetFlag(SF, Digit(r, bits - 1));
      var even := Parity(r);
      SetFlag(PF, even);
      var cf, of;
      if isSub {
        cf := Masked(a, bits) < Masked(b, bits);
        of := SubBit(a, b, r, bits);
      } else {
        cf := result > Modulus(bits) - 1;
        of := AddBit(a, b, r, bits);
      }
      SetFlag(CF, cf);
      SetFlag(OF, of);
      assert Flags(cf, even, r == 0, Digit(r, bits - 1), of) == ComputedFlags(a, b, result, isSub, bits);
    }

    method FullWidthUpdate(a: u64, b: u64, result: u64, isSub: bool)
      requires result == Wrapped(a, b, isSub)
      modifies this`rflags
      ensures OpFlags(ReadFlags(rflags), a, b, isSub) && SameOthers(old(rflags), rflags)
    {
      OpFlagsHold(rflags, a, b, isSub);
      UpdateFlagsArith(a, b, result, isSub, WORD_BITS);
    }

    // What the forms share: the first operand is also the place of the result.
    method Arithmetic(dst: nat, b: u64, isSub: bool, store: bool, len: nat)
      requires Valid() && dst < 16
      modifies this`rip, this`rflags, gpr
      ensures var a := old(gpr[dst]);
        && OpFlags(ReadFlags(rflags), a, b, isSub)
        && gpr[..] == (if !store then old(gpr[..])
                       else old(gpr[..])[dst := (if isSub then a - b else a + b) % 0x1_0000_0000_0000_0000])
      ensures rip == Word64(old(rip) + len)
      ensures SameOthers(old(rflags), rflags)
    {
      rip := Word64(rip + len);
      var a := gpr[dst];
      var r := if isSub then Sub64(a, b) else Add64(a, b);
      WrappedValues(a, b);
      FullWidthUpdate(a, b, r, isSub);
      if store { gpr[dst] := r; }
    }

    method ArithmeticImm(rm: nat, imm: int, isSub: bool, store: bool, len: nat)
      requires Valid() && rm < 16
      modifies this`rip, this`rflags, gpr
      ensures var y := old(gpr[rm]);
        && OpFlags(ReadFlags(rflags), y, imm % 0x1_0000_0000_0000_0000, isSub)
        && gpr[..] == (if !store then old(gpr[..])
                       else old(gpr[..])[rm := (if isSub then y - imm else y + imm) % 0x1_0000_0000_0000_0000])
      ensures rip == Word64(old(rip) + len)
      ensures SameOthers(old(rflags), rflags)
    {
      ImmediateWraps(gpr[rm], imm);
      Arithmetic(rm, Word64(imm), isSub, store, len);
    }

    /** Which register each form changes, and to what, and the flags it leaves. */
    method Execute(op: Arith, reg: nat, rm: nat, len: nat)
      requires Valid() && reg < 16 && rm < 16
      modifies this`rip, this`rflags, gpr
      ensures Executed(op, reg, rm, old(gpr[..]), gpr[..], ReadFlags(rflags))
      ensures rip == (old(rip) + len) % 0x1_0000_0000_0000_0000
      ensures SameOthers(old(rflags), rflags)
    {
      match op
      case AddRegRm => Arithmetic(reg, gpr[rm], false, true, len);
      case SubRegRm => Arithmetic(reg, gpr[rm], true, true, len);
      case CmpRegRm => Arithmetic(reg, gpr[rm], true, false, len);
      case CmpRmReg => Arithmetic(rm, gpr[reg], true, false, len);
      case AddRmImm(imm) => ArithmeticImm(rm, imm, false, true, len);
      case SubRmImm(imm) => ArithmeticImm(rm, imm, true, true, len);
      case CmpRmImm(imm) => ArithmeticImm(rm, imm, true, false, len);
    }

    // The short form (one-byte displacement) and the near form (four bytes) differ in `len` only.
    method Jcc(cc: nat, rel: int, len: nat)
      modifies this`rip
      ensures rip == Word64(old(rip) + len + if Taken(cc, ReadFlags(rflags)) then rel else 0)
    {
      ghost var start := rip;
      rip := Word64(rip + len);
      var taken := Taken(cc, ReadFlags(rflags));
      WordSum(start, len, if taken then rel else 0);
      if taken {
        rip := Word64(rip + rel);
      }
    }

    /** CMP of two registers: every condition then tells the order of the operands. */
    method Compare(reg: nat, rm: nat, len: nat)
      requires Valid() && reg < 16 && rm < 16
      modifies this`rip, this`rflags, gpr
      ensures gpr[..] == old(gpr[..]) && rip == Word64(old(rip) + len)
      ensures forall cc: nat :: Taken(cc, ReadFlags(rflags)) <==> Relation(cc, old(gpr[rm]), old(gpr[reg]))
    {
      ghost var a, b := gpr[rm], gpr[reg];
      Execute(CmpRmReg, reg, rm, len);
      ghost var f := ReadFlags(rflags);
      forall cc: nat
        ensures Taken(cc, f) <==> Relation(cc, a, b)
      {
        TakenAfterCompare(cc, a, b, f);
      }
    }

    /** A comparison followed by a conditional jump branches on the order of the operands. */
    method CompareThenJump(reg: nat, rm: nat, len: nat, cc: nat, rel: int, jumpLen: nat)
      requires Valid() && reg < 16 && rm < 16
      modifies this`rip, this`rflags, gpr
      ensures gpr[..] == old(gpr[..])
      ensures rip == Word64(old(rip) + len + jumpLen + if Relation(cc, old(gpr[rm]), old(gpr[reg])) then rel else 0)
    {
      ghost var start := rip;
      Compare(reg, rm, len);
      WordSum(start, len, jumpLen + if Taken(cc, ReadFlags(rflags)) then rel else 0);
      Jcc(cc, rel, jumpLen);
    }

    // MUL: RDX:RAX receives the unsigned product.
    method Mul(rm: nat, len: nat)
      requires Valid() && rm < 16
      modifies this`rip, this`rflags, gpr
      ensures gpr[2] as int * 0x1_0000_0000_0000_0000 + gpr[0] == old(gpr[0]) as int * old(gpr[rm])
      ensures forall i :: 0 <= i < 16 && i != 0 && i != 2 ==> gpr[i] == old(gpr[i])
      ensures var high := old(gpr[0]) as int * old(gpr[rm]) > 0xFFFF_FFFF_FFFF_FFFF;
        ReadFlags(rflags) == ReadFlags(old(rflags)).(cf := high, of := high)
      ensures rip == Word64(old(rip) + len) && SameOthers(old(rflags), rflags)
    {
      rip := Word64(rip + len);
      var hi, lo := Mul128U(gpr[RAX], gpr[rm]);
      gpr[RAX] := lo;
      gpr[RDX] := hi;
      SetOverflow(hi != 0);
    }

    // IMUL with one operand: RDX:RAX receives the signed product.
    method IMulWide(rm: nat, len: nat)
      requires Valid() && rm < 16
      modifies this`rip, this`rflags, gpr
      ensures Int64(gpr[2]) * 0x1_0000_0000_0000_0000 + gpr[0] == Int64(old(gpr[0])) * Int64(old(gpr[rm]))
      ensures forall i :: 0 <= i < 16 && i != 0 && i != 2 ==> gpr[i] == old(gpr[i])
      ensures var overflow := !FitsSigned(Int64(old(gpr[0])) * Int64(old(gpr[rm])));
        ReadFlags(rflags) == ReadFlags(old(rflags)).(cf := overflow, of := overflow)
      ensures rip == Word64(old(rip) + len) && SameOthers(old(rflags), rflags)
    {
      rip := Word64(rip + len);
      ghost var p := Int64(gpr[RAX]) * Int64(gpr[rm]);
      var hi, lo := Mul128S(gpr[RAX], gpr[rm]);
      gpr[RAX] := lo;
      gpr[RDX] := hi;
      OverflowIff(hi, lo, p);
      SetOverflow(Int64(hi) != if Int64(lo) < 0 then -1 else 0);
    }

    // IMUL into a register: `a` is the register or memory operand, `b` the register or immediate.
    method IMul(reg: nat, a: u64, b: u64, len: nat)
      requires Valid() && reg < 16
      modifies this`rip, this`rflags, gpr
      ensures var p := Int64(a) * Int64(b);
        && (FitsSigned(p) ==> Int64(gpr[reg]) == p)
        && gpr[reg] == Word64(p)
        && ReadFlags(rflags) == ReadFlags(old(rflags)).(cf := !FitsSigned(p), of := !FitsSigned(p))
      ensures forall i :: 0 <= i < 16 && i != reg ==> gpr[i] == old(gpr[i])
      ensures rip == Word64(old(rip) + len) && SameOthers(old(rflags), rflags)
    {
      rip := Word64(rip + len);
      var hi, lo := Mul128S(a, b);
      gpr[reg] := lo;
      OverflowIff(hi, lo, Int64(a) * Int64(b));
      SetOverflow(Int64(hi) != if Int64(lo) < 0 then -1 else 0);
      LowIsRemainder(Int64(hi), lo, Int64(a) * Int64(b));
    }

    // IMUL with a sign-extended immediate.
    method IMulImm(reg: nat, rm: nat, imm: int, len: nat)
      requires Valid() && reg < 16 && rm < 16 && -0x8000_0000 <= imm < 0x8000_0000
      modifies this`rip, this`rflags, gpr
      ensures var p := Int64(old(gpr[rm])) * imm;
        && (FitsSigned(p) ==> Int64(gpr[reg]) == p)
        && gpr[reg] == Word64(p)
        && ReadFlags(rflags) == ReadFlags(old(rflags)).(cf := !FitsSigned(p), of := !FitsSigned(p))
      ensures forall i :: 0 <= i < 16 && i != reg ==> gpr[i] == old(gpr[i])
      ensures rip == Word64(old(rip) + len) && SameOthers(old(rflags), rflags)
    {
      Int64OfWord(imm);
      IMul(reg, gpr[rm], Word64(imm), len);
    }
  }

  lemma LowIsRemainder(hi: int, lo: u64, p: int)
    requires hi * 0x1_0000_0000_0000_0000 + lo == p
    ensures Word64(p) == lo
  {
  }

  // Adding or subtracting the extended immediate is adding or subtracting the immediate.
  lemma ImmediateWraps(x: u64, imm: int)
    ensures (x + Word64(imm)) % 0x1_0000_0000_0000_0000 == (x + imm) % 0x1_0000_0000_0000_0000
    ensures (x - Word64(imm)) % 0x1_0000_0000_0000_0000 == (x - imm) % 0x1_0000_0000_0000_0000
  {
  }

  lemma WordSum(x: u64, y: int, z: int)
    ensures Word64(Word64(x + y) + z) == Word64(x + y + z)
  {
  }
}
