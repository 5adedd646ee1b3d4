/** The CRC-32 of the save-state format: ISO 3309 / ITU-T V.42, reflected polynomial 0xEDB88320. */
module Crc32 {
  import opened Words

  const POLY: nat := 0xEDB8_8320
  const ONES: nat := 0xFFFF_FFFF
  const BYTE: nat := 8

  // One step of the shift register.
  function Shift(c: nat): nat {
    if c % 2 == 1 then Xor(POLY, c / 2) else c / 2
  }

  function Shifts(c: nat, n: nat): nat
    decreases n
  {
    if n == 0 then c else Shifts(Shift(c), n - 1)
  }

  function Absorb(r: nat, b: byte): nat {
    Shifts(Xor(r, b), BYTE)
  }

  function Register(r: nat, data: seq<byte>): nat
    decreases |data|
  {
    if data == [] then r else Register(Absorb(r, data[0]), data[1..])
  }

  function Checksum(data: seq<byte>): nat {
    Xor(Register(ONES, data), ONES)
  }

  // ----- reference: polynomial division, one bit at a time -----

  function XorPrefix(s: seq<bool>, p: seq<bool>): seq<bool> {
    seq(|s|, i requires 0 <= i < |s| => if i < |p| then s[i] != p[i] else s[i])
  }

  // The 32 digits of a word, lowest first: in reflected order that is the highest power first.
  function Bits(r: nat): seq<bool> {
    LowBits(r, 32)
  }

  function Message(data: seq<byte>): seq<bool> {
    if data == [] then [] else LowBits(data[0], BYTE) + Message(data[1..])
  }

  /** The generator of the standard is x^32 plus these powers of x. */
  predicate IsTerm(k: nat) {
    k in {0, 1, 2, 4, 5, 7, 8, 10, 11, 12, 16, 22, 23, 26}
  }

  // Its coefficients below x^32, the highest power first.
  function Generator(): (g: seq<bool>)
    ensures |g| == 32 && forall k: nat :: k < 32 ==> (g[31 - k] <==> IsTerm(k))
  {
    seq(32, i requires 0 <= i < 32 => IsTerm(31 - i))
  }

  /** Schoolbook long division over GF(2) by the generator: drop the leading digit, subtracting the divisor
      if it was set. */
  function Remainder(s: seq<bool>): seq<bool>
    decreases |s|
  {
    if |s| <= 32 then s
    else if s[0] then Remainder(XorPrefix(s[1..], Generator()))
    else Remainder(s[1..])
  }

  function Zeros(n: nat): seq<bool> {
    seq(n, i => false)
  }

  function Ones(n: nat): seq<bool> {
    seq(n, i => true)
  }

  /** The frame check sequence: append 32 zero bits, complement the first 32 bits, divide, and
      complement the remainder. */
  function FrameCheck(data: seq<byte>): seq<bool> {
    XorPrefix(Remainder(XorPrefix(Message(data) + Zeros(32), Ones(32))), Ones(32))
  }

  // ----- sizes -----

  lemma ShiftBound(c: nat)
    requires c < U32
    ensures Shift(c) < U32
  {
    Pow2Sizes();
    XorBound(POLY, c / 2, 32);
  }

  lemma {:induction false} ShiftsBound(c: nat, n: nat)
    requires c < U32
    ensures Shifts(c, n) < U32
    decreases n
  {
    if n > 0 {
      ShiftBound(c);
      ShiftsBound(Shift(c), n - 1);
    }
  }

  lemma AbsorbBound(r: nat, b: byte)
    requires r < U32
    ensures Xor(r, b) < U32 && Absorb(r, b) < U32
  {
    Pow2Sizes();
    XorBound(r, b, 32);
    ShiftsBound(Xor(r, b), BYTE);
  }

  lemma {:induction false} RegisterBound(r: nat, data: seq<byte>)
    requires r < U32
    ensures Register(r, data) < U32
    decreases |data|
  {
    if data != [] {
      AbsorbBound(r, data[0]);
      RegisterBound(Absorb(r, data[0]), data[1..]);
    }
  }

  // ----- linearity over exclusive-or -----

  lemma ShiftLinear(x: nat, y: nat)
    ensures Shift(Xor(x, y)) == Xor(Shift(x), Shift(y))
  {
    var a, b := x / 2, y / 2;
    XorDigits(x, y);
    XorAssoc(POLY, a, b);
    XorSwap(POLY, b, a);
    XorComm(a, b);
    XorComm(a, Xor(POLY, b));
    CancelPair(POLY, a, b);
  }

  lemma CancelPair(p: nat, a: nat, b: nat)
    ensures Xor(Xor(p, a), Xor(p, b)) == Xor(a, b)
  {
    XorComm(p, a);
    XorAssoc(a, p, Xor(p, b));
    XorAssoc(p, p, b);
    XorSelf(p);
    XorZero(b);
  }

  lemma {:induction false} ShiftsLinear(x: nat, y: nat, n: nat)
    ensures Shifts(Xor(x, y), n) == Xor(Shifts(x, n), Shifts(y, n))
    decreases n
  {
    if n > 0 {
      ShiftLinear(x, y);
      ShiftsLinear(Shift(x), Shift(y), n - 1);
    }
  }

  // ----- the register performs the division -----

  function ShiftIn(r: nat, m: bool): nat {
    Shift(Xor(r, if m then 1 else 0))
  }

  function ShiftInAll(r: nat, m: seq<bool>): nat
    decreases |m|
  {
    if m == [] then r else ShiftInAll(ShiftIn(r, m[0]), m[1..])
  }

  lemma ShiftInCases(r: nat, m: bool)
    ensures ShiftIn(r, m) == if (r % 2 == 1) != m then Xor(POLY, r / 2) else r / 2
  {
    XorDigits(r, if m then 1 else 0);
    XorZero(r / 2);
  }

  lemma XorPrefixTwice(s: seq<bool>, a: nat, b: nat)
    requires |s| >= 32
    ensures XorPrefix(XorPrefix(s, Bits(a)), Bits(b)) == XorPrefix(s, Bits(Xor(b, a)))
  {
    LowBitsXor(b, a, 32);
  }

  lemma BitsShift(r: nat)
    requires r < U32
    ensures Bits(r / 2) == Bits(r)[1..] + [false]
  {
    Pow2Sizes();
    LowBitsGrow(r / 2, 31);
    assert Bits(r) == [r % 2 == 1] + LowBits(r / 2, 31);
  }

  lemma DropHead(r: nat, h: bool, rest: seq<bool>)
    requires r < U32 && |rest| >= 32
    ensures var s := XorPrefix([h] + rest, Bits(r));
      s[0] == (h != (r % 2 == 1)) && s[1..] == XorPrefix(rest, Bits(r / 2))
  {
    var s := XorPrefix([h] + rest, Bits(r));
    BitsShift(r);
    forall i | 0 <= i < |rest| ensures s[1..][i] == XorPrefix(rest, Bits(r / 2))[i] {
      assert s[1..][i] == s[i+1] && ([h] + rest)[i+1] == rest[i];
      if i < 31 { assert Bits(r / 2)[i] == Bits(r)[i+1]; }
    }
  }

  // The word whose digits are the given ones, lowest first.
  function WordOf(m: seq<bool>): nat {
    if m == [] then 0 else (if m[0] then 1 else 0) + 2 * WordOf(m[1..])
  }

  lemma {:induction false} WordOfBits(m: seq<bool>)
    ensures WordOf(m) < Pow2(|m|) && LowBits(WordOf(m), |m|) == m
    decreases |m|
  {
    if m != [] {
      WordOfBits(m[1..]);
      assert WordOf(m) / 2 == WordOf(m[1..]);
    }
  }

  function Term(k: nat): nat {
    if IsTerm(k) then 1 else 0
  }

  // The word of the coefficients below x^k.
  function GeneratorWord(k: nat): nat
    requires k <= 32
  {
    WordOf(Generator()[32 - k..])
  }

  lemma OnePlace(k: nat)
    requires 0 < k <= 32
    ensures GeneratorWord(k) == Term(k - 1) + 2 * GeneratorWord(k - 1)
  {
    var g := Generator()[32 - k..];
    assert g[1..] == Generator()[32 - (k - 1)..];
    assert Generator()[31 - (k - 1)] <==> IsTerm(k - 1);
  }

  lemma FourPlaces(k: nat)
    requires 4 <= k <= 32
    ensures GeneratorWord(k) ==
      Term(k - 1) + 2 * Term(k - 2) + 4 * Term(k - 3) + 8 * Term(k - 4) + 16 * GeneratorWord(k - 4)
  {
    OnePlace(k);
    OnePlace(k - 1);
    OnePlace(k - 2);
    OnePlace(k - 3);
  }

  lemma LowerTerms()
    ensures GeneratorWord(16) == 0xEDB8
  {
    assert GeneratorWord(0) == 0;
    FourPlaces(4);
    FourPlaces(8);
    FourPlaces(12);
    FourPlaces(16);
  }

  lemma UpperTerms()
    ensures GeneratorWord(32) == 0xEDB8_8320
  {
    LowerTerms();
    FourPlaces(20);
    FourPlaces(24);
    FourPlaces(28);
    FourPlaces(32);
  }

  /** The constant of the table holds the generator, its coefficients in reverse. */
  lemma PolyIsGenerator()
    ensures Bits(POLY) == Generator()
    ensures forall k: nat :: k < 32 ==> (Bits(POLY)[31 - k] <==> IsTerm(k))
  {
    UpperTerms();
    assert Generator()[32 - 32..] == Generator();
    WordOfBits(Generator());
  }

  lemma {:induction false} DivisionIsRegister(r: nat, m: seq<bool>)
    requires r < U32
    ensures Remainder(XorPrefix(m + Zeros(32), Bits(r))) == Bits(ShiftInAll(r, m))
    decreases |m|
  {
    if m == [] {
      assert m + Zeros(32) == Zeros(32);
      assert XorPrefix(Zeros(32), Bits(r)) == Bits(r);
    } else {
      var h, rest := m[0], m[1..] + Zeros(32);
      assert m + Zeros(32) == [h] + rest;
      DropHead(r, h, rest);
      XorPrefixTwice(rest, r / 2, POLY);
      PolyIsGenerator();
      ShiftInCases(r, h);
      Pow2Sizes();
      XorBound(POLY, r / 2, 32);
      DivisionIsRegister(ShiftIn(r, h), m[1..]);
    }
  }

  lemma LowDigit(w: nat)
    ensures w == Xor(w % 2, 2 * (w / 2))
  {
    XorDigits(w % 2, 2 * (w / 2));
    XorZero(w / 2);
  }

  lemma ShiftInPeel(r: nat, w: nat)
    ensures Xor(ShiftIn(r, w % 2 == 1), w / 2) == Shift(Xor(r, w))
  {
    var low, high := w % 2, 2 * (w / 2);
    LowDigit(w);
    XorAssoc(r, low, high);
    ShiftLinear(Xor(r, low), high);
    assert Shift(high) == w / 2;
  }

  lemma {:induction false} ShiftInWord(r: nat, w: nat, n: nat)
    requires w < Pow2(n)
    ensures ShiftInAll(r, LowBits(w, n)) == Shifts(Xor(r, w), n)
    decreases n
  {
    if n > 0 {
      ShiftInPeel(r, w);
      ShiftInWord(ShiftIn(r, w % 2 == 1), w / 2, n - 1);
      assert LowBits(w, n)[1..] == LowBits(w / 2, n - 1);
    } else {
      XorZero(r);
    }
  }

  lemma {:induction false} ShiftInAppend(r: nat, a: seq<bool>, b: seq<bool>)
    ensures ShiftInAll(r, a + b) == ShiftInAll(ShiftInAll(r, a), b)
    decreases |a|
  {
    if a == [] {
      assert a + b == b;
    } else {
      assert (a + b)[1..] == a[1..] + b;
      ShiftInAppend(ShiftIn(r, a[0]), a[1..], b);
    }
  }

  lemma {:induction false} ShiftInMessage(r: nat, data: seq<byte>)
    ensures ShiftInAll(r, Message(data)) == Register(r, data)
    decreases |data|
  {
    if data != [] {
      var b := data[0];
      Pow2Sizes();
      ShiftInWord(r, b, BYTE);
      ShiftInAppend(r, LowBits(b, BYTE), Message(data[1..]));
      ShiftInMessage(Absorb(r, b), data[1..]);
    }
  }

  /** The checksum is the frame check sequence of the standard, for every byte string. */
  lemma ChecksumIsFrameCheck(data: seq<byte>)
    ensures Bits(Checksum(data)) == FrameCheck(data)
  {
    Pow2Sizes();
    LowBitsOnes(32);
    DivisionIsRegister(ONES, Message(data));
    ShiftInMessage(ONES, data);
    LowBitsXor(Register(ONES, data), ONES, 32);
    assert Bits(ONES) == Ones(32);
  }

  // ----- the table -----

  lemma {:induction false} ShiftsAligned(h: nat, n: nat)
    ensures Shifts(Shl(h, n), n) == h
    decreases n
  {
    if n > 0 {
      assert Shift(Shl(h, n)) == Shl(h, n - 1);
      ShiftsAligned(h, n - 1);
    }
  }

  lemma ByteSize()
    ensures Pow2(BYTE) == 256
  {
    Pow2Sizes();
  }

  lemma EightPlaces(x: nat)
    ensures Shl(x, BYTE) == 256 * x && Shr(x, BYTE) == x / 256
  {
    ByteSize();
    ShrIsDivision(x, BYTE);
    ShlIsProduct(x, BYTE);
  }

  lemma HighPart(c: nat, b: byte)
    ensures Xor(c, b) / 256 == c / 256
  {
    EightPlaces(Xor(c, b));
    EightPlaces(c);
    EightPlaces(b);
    XorShr(c, b, BYTE);
    XorZero(c / 256);
  }

  lemma ShiftsSplit(x: nat, lo: nat, h: nat, n: nat)
    requires lo < Pow2(n) && x == lo + Shl(h, n)
    ensures Shifts(x, n) == Xor(Shifts(lo, n), h)
  {
    XorDisjoint(lo, h, n);
    ShiftsLinear(lo, Shl(h, n), n);
    ShiftsAligned(h, n);
  }

  /** One table look-up does the work of eight register steps. */
  lemma TableStep(c: nat, b: byte)
    ensures Absorb(c, b) == Xor(Shifts(Xor(c, b) % 256, BYTE), c / 256)
  {
    HighPart(c, b);
    ByteSize();
    EightPlaces(c / 256);
    ShiftsSplit(Xor(c, b), Xor(c, b) % 256, c / 256, BYTE);
  }

  lemma {:induction false} ShiftsMore(c: nat, n: nat)
    ensures Shifts(c, n + 1) == Shift(Shifts(c, n))
    decreases n
  {
    if n > 0 { ShiftsMore(Shift(c), n - 1); }
  }

  lemma {:induction false} RegisterAppend(r: nat, a: seq<byte>, b: seq<byte>)
    ensures Register(r, a + b) == Register(Register(r, a), b)
    decreases |a|
  {
    if a == [] {
      assert a + b == b;
    } else {
      assert (a + b)[1..] == a[1..] + b;
      RegisterAppend(Absorb(r, a[0]), a[1..], b);
    }
  }

  lemma RegisterSnoc(r: nat, a: seq<byte>, b: byte)
    ensures Register(r, a + [b]) == Absorb(Register(r, a), b)
  {
    RegisterAppend(r, a, [b]);
    assert Register(Register(r, a), [b]) == Register(Absorb(Register(r, a), b), [b][1..]);
  }

  method TableEntry(i: nat) returns (c: nat)
    ensures c == Shifts(i, BYTE)
  {
    c := i;
    var k: nat := 0;
    while k < BYTE
      invariant k <= BYTE && c == Shifts(i, k)
    {
      ShiftsMore(i, k);
      c := if c % 2 == 1 then Xor(POLY, c / 2) else c / 2;
      k := k + 1;
    }
  }

  /** The function's static locals: the look-up table, filled by the first call. */
  class Crc32State {
    const table: array<nat>
    var tableReady: bool

    constructor ()
      ensures Valid() && !tableReady && fresh(table)
    {
      table := new nat[256];
      tableReady := false;
    }

    ghost predicate Valid()
      reads this, table
    {
      table.Length == 256 && (tableReady ==> Filled(256))
    }

    ghost predicate Filled(n: nat)
      requires table.Length == 256 && n <= 256
      reads table
    {
      forall i: nat :: i < n ==> table[i] == Shifts(i, BYTE)
    }

    method FillTable()
      requires table.Length == 256
      modifies table
      ensures Filled(256)
    {
      var i: nat := 0;
      while i < 256
        invariant i <= 256 && Filled(i)
      {
        var c := TableEntry(i);
        table[i] := c;
        i := i + 1;
      }
    }

    /** The table-driven loop computes the frame check sequence of the standard. */
    method Crc32(data: seq<byte>) returns (sum: nat)
      requires Valid()
      modifies this, table
      ensures Valid() && tableReady
      ensures sum == Checksum(data) && sum < U32 && Bits(sum) == FrameCheck(data)
    {
      if !tableReady {
        FillTable();
        tableReady := true;
      }
      var crc := ONES;
      for i := 0 to |data|
        invariant Valid() && tableReady
        invariant crc == Register(ONES, data[..i])
      {
        TableStep(crc, data[i]);
        RegisterSnoc(ONES, data[..i], data[i]);
        assert data[..i+1] == data[..i] + [data[i]];
        crc := Xor(table[Xor(crc, data[i]) % 256], crc / 256);
      }
      assert data[..|data|] == data;
      sum := Xor(crc, ONES);
      ChecksumIsFrameCheck(data);
      ChecksumBound(data);
    }
  }

  lemma ChecksumBound(data: seq<byte>)
    ensures Checksum(data) < U32
  {
    Pow2Sizes();
    RegisterBound(ONES, data);
    XorBound(Register(ONES, data), ONES, 32);
  }

  // ----- error detection -----

  // The top digit of POLY marks the odd inputs.
  lemma OddShiftIsHigh(a: nat)
    requires a < 0x8000_0000
    ensures Xor(POLY, a) >= 0x8000_0000
  {
    var low := POLY - 0x8000_0000;
    Pow2Sizes();
    ShlIsProduct(1, 31);
    XorDisjoint(low, 1, 31);
    XorSwap(low, 0x8000_0000, a);
    XorBound(low, a, 31);
    XorDisjoint(Xor(low, a), 1, 31);
  }

  lemma ShiftInjective(x: nat, y: nat)
    requires x < U32 && y < U32 && Shift(x) == Shift(y)
    ensures x == y
  {
    OddShiftIsHigh(x / 2);
    OddShiftIsHigh(y / 2);
    if x % 2 == 1 && y % 2 == 1 {
      XorComm(POLY, x / 2);
      XorComm(POLY, y / 2);
      XorCancel(x / 2, y / 2, POLY);
    }
  }

  lemma {:induction false} ShiftsInjective(x: nat, y: nat, n: nat)
    requires x < U32 && y < U32 && Shifts(x, n) == Shifts(y, n)
    ensures x == y
    decreases n
  {
    if n > 0 {
      ShiftBound(x);
      ShiftBound(y);
      ShiftsInjective(Shift(x), Shift(y), n - 1);
      ShiftInjective(x, y);
    }
  }

  lemma DigitBound(r: nat, m: bool)
    requires r < U32
    ensures Xor(r, if m then 1 else 0) < U32 && ShiftIn(r, m) < U32
  {
    Pow2Sizes();
    XorBound(r, if m then 1 else 0, 32);
    ShiftBound(Xor(r, if m then 1 else 0));
  }

  // Equal bits keep different registers different.
  lemma {:induction false} ShiftInInjective(x: nat, y: nat, m: seq<bool>)
    requires x < U32 && y < U32 && ShiftInAll(x, m) == ShiftInAll(y, m)
    ensures x == y
    decreases |m|
  {
    if m != [] {
      var d := if m[0] then 1 else 0;
      DigitBound(x, m[0]);
      DigitBound(y, m[0]);
      ShiftInInjective(ShiftIn(x, m[0]), ShiftIn(y, m[0]), m[1..]);
      ShiftInjective(Xor(x, d), Xor(y, d));
      XorCancel(x, y, d);
    }
  }

  lemma {:induction false} ShiftInBound(r: nat, m: seq<bool>)
    requires r < U32
    ensures ShiftInAll(r, m) < U32
    decreases |m|
  {
    if m != [] {
      DigitBound(r, m[0]);
      ShiftInBound(ShiftIn(r, m[0]), m[1..]);
    }
  }

  /** Equal data keeps different registers different. */
  lemma RegisterInjective(x: nat, y: nat, data: seq<byte>)
    requires x < U32 && y < U32 && Register(x, data) == Register(y, data)
    ensures x == y
  {
    ShiftInMessage(x, data);
    ShiftInMessage(y, data);
    ShiftInInjective(x, y, Message(data));
  }

  lemma {:induction false} Pow2Most(m: nat, n: nat)
    requires m <= n
    ensures Pow2(m) <= Pow2(n)
    decreases n
  {
    if m < n { Pow2Most(m, n - 1); }
  }

  // Up to 32 bits enter the register like a single exclusive-or.
  lemma BurstEnters(r: nat, m: seq<bool>)
    requires r < U32 && |m| <= 32
    ensures ShiftInAll(r, m) == Shifts(Xor(r, WordOf(m)), |m|) && Xor(r, WordOf(m)) < U32
  {
    WordOfBits(m);
    ShiftInWord(r, WordOf(m), |m|);
    Pow2Most(|m|, 32);
    Pow2Sizes();
    XorBound(r, WordOf(m), 32);
  }

  lemma BurstChangesRegister(r: nat, s: seq<bool>, t: seq<bool>)
    requires r < U32 && |s| == |t| <= 32 && s != t
    ensures ShiftInAll(r, s) != ShiftInAll(r, t)
  {
    BurstEnters(r, s);
    BurstEnters(r, t);
    WordOfBits(s);
    WordOfBits(t);
    if ShiftInAll(r, s) == ShiftInAll(r, t) {
      var v, w := WordOf(s), WordOf(t);
      ShiftsInjective(Xor(r, v), Xor(r, w), |s|);
      XorComm(r, v);
      XorComm(r, w);
      XorCancel(v, w, r);
    }
  }

  // In the middle of a message such a burst is not undone by what follows.
  lemma BurstStays(r: nat, head: seq<bool>, s: seq<bool>, t: seq<bool>, tail: seq<bool>)
    requires r < U32 && |s| == |t| <= 32 && s != t
    ensures ShiftInAll(r, head + (s + tail)) != ShiftInAll(r, head + (t + tail))
  {
    var r1 := ShiftInAll(r, head);
    ShiftInAppend(r, head, s + tail);
    ShiftInAppend(r, head, t + tail);
    ShiftInAppend(r1, s, tail);
    ShiftInAppend(r1, t, tail);
    ShiftInBound(r, head);
    ShiftInBound(r1, s);
    ShiftInBound(r1, t);
    BurstChangesRegister(r1, s, t);
    if ShiftInAll(r, head + (s + tail)) == ShiftInAll(r, head + (t + tail)) {
      ShiftInInjective(ShiftInAll(r1, s), ShiftInAll(r1, t), tail);
    }
  }

  /** The two strings differ, but as bit strings in transmission order they agree outside `width` (at most
      32) bits that start at bit `at`; these may touch five bytes. */
  ghost predicate DifferInBurst(a: seq<byte>, b: seq<byte>, at: nat, width: nat) {
    var m, k := Message(a), Message(b);
    && width <= 32 && at + width <= |m| && |m| == |k| && m != k
    && m[..at] == k[..at] && m[at+width..] == k[at+width..]
  }

  lemma AroundBurst(m: seq<bool>, at: nat, width: nat)
    requires at + width <= |m|
    ensures m == m[..at] + (m[at..at+width] + m[at+width..])
  {
  }

  /** Two strings that differ only within 32 consecutive bits never share a checksum. */
  lemma BurstsAreDetected(a: seq<byte>, b: seq<byte>, at: nat, width: nat)
    requires DifferInBurst(a, b, at, width)
    ensures Checksum(a) != Checksum(b)
  {
    var m, k := Message(a), Message(b);
    AroundBurst(m, at, width);
    AroundBurst(k, at, width);
    BurstStays(ONES, m[..at], m[at..at+width], k[at..at+width], m[at+width..]);
    ShiftInMessage(ONES, a);
    ShiftInMessage(ONES, b);
    if Checksum(a) == Checksum(b) {
      XorCancel(Register(ONES, a), Register(ONES, b), ONES);
    }
  }

  lemma {:induction false} LowBitsInjective(x: nat, y: nat, n: nat)
    requires x < Pow2(n) && y < Pow2(n) && LowBits(x, n) == LowBits(y, n)
    ensures x == y
    decreases n
  {
    if n > 0 {
      assert LowBits(x, n)[0] == LowBits(y, n)[0];
      assert LowBits(x, n)[1..] == LowBits(x / 2, n - 1) && LowBits(y, n)[1..] == LowBits(y / 2, n - 1);
      LowBitsInjective(x / 2, y / 2, n - 1);
    }
  }

  lemma MessageUnfold(b: byte, rest: seq<byte>)
    ensures Message([b] + rest)[..BYTE] == LowBits(b, BYTE) && Message([b] + rest)[BYTE..] == Message(rest)
  {
    assert ([b] + rest)[1..] == rest;
  }

  // A message stands for one byte string only.
  lemma {:induction false} MessageInjective(a: seq<byte>, b: seq<byte>)
    requires |a| == |b| && Message(a) == Message(b)
    ensures a == b
    decreases |a|
  {
    if a != [] {
      assert a == [a[0]] + a[1..] && b == [b[0]] + b[1..];
      MessageUnfold(a[0], a[1..]);
      MessageUnfold(b[0], b[1..]);
      MessageInjective(a[1..], b[1..]);
      ByteSize();
      LowBitsInjective(a[0], b[0], BYTE);
    }
  }

  lemma {:induction false} MessageLength(a: seq<byte>)
    ensures |Message(a)| == 8 * |a|
    decreases |a|
  {
    if a != [] { MessageLength(a[1..]); }
  }

  lemma {:induction false} MessageJoin(a: seq<byte>, b: seq<byte>)
    ensures Message(a + b) == Message(a) + Message(b)
    decreases |a|
  {
    if a == [] {
      assert a + b == b;
    } else {
      assert (a + b)[1..] == a[1..] + b;
      MessageJoin(a[1..], b);
    }
  }

  lemma MessageParts(a: seq<byte>, at: nat, width: nat)
    requires at + width <= |a|
    ensures var m := Message(a);
      && |m| >= 8 * (at + width)
      && m[..8 * at] == Message(a[..at]) && m[8 * at + 8 * width..] == Message(a[at+width..])
  {
    var head, s, tail := a[..at], a[at..at+width], a[at+width..];
    assert a == head + (s + tail);
    MessageJoin(head, s + tail);
    MessageJoin(s, tail);
    MessageLength(head);
    MessageLength(s);
  }

  // Whole bytes are bursts too: up to four neighbours may change.
  lemma BytesAreBursts(a: seq<byte>, b: seq<byte>, at: nat, width: nat)
    requires width <= 4 && at + width <= |a| && |a| == |b| && a != b
    requires a[..at] == b[..at] && a[at+width..] == b[at+width..]
    ensures DifferInBurst(a, b, 8 * at, 8 * width)
  {
    MessageParts(a, at, width);
    MessageParts(b, at, width);
    MessageLength(a);
    MessageLength(b);
    if Message(a) == Message(b) { MessageInjective(a, b); }
  }
}
