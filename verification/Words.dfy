/** Machine words as natural numbers, with exclusive-or on their binary digits. */
module Words {
  type byte = x: nat | x < 256

  const U32: nat := 0x1_0000_0000
  const U64: nat := 0x1_0000_0000_0000_0000

  type u32 = x: nat | x < U32
  type u64 = x: nat | x < U64

  function Xor(a: nat, b: nat): nat {
    if a == 0 && b == 0 then 0
    else (if a % 2 != b % 2 then 1 else 0) + 2 * Xor(a / 2, b / 2)
  }

  // `h << n`.
  function Shl(h: nat, n: nat): nat {
    if n == 0 then h else 2 * Shl(h, n - 1)
  }

  // `a >> n`.
  function Shr(a: nat, n: nat): nat
    decreases n
  {
    if n == 0 then a else Shr(a / 2, n - 1)
  }

  function Pow2(n: nat): (p: nat)
    ensures p > 0
  {
    if n == 0 then 1 else 2 * Pow2(n - 1)
  }

  // The n lowest digits, lowest first.
  function LowBits(w: nat, n: nat): (s: seq<bool>)
    ensures |s| == n
  {
    if n == 0 then [] else [w % 2 == 1] + LowBits(w / 2, n - 1)
  }

  lemma Pow2Four(n: nat)
    ensures Pow2(n + 4) == 16 * Pow2(n)
  {
    assert Pow2(n + 4) == 2 * Pow2(n + 3);
    assert Pow2(n + 2) == 2 * Pow2(n + 1);
  }

  lemma Pow2Sizes()
    ensures Pow2(8) == 256 && Pow2(32) == U32 && Pow2(64) == U64
    ensures Pow2(31) == 0x8000_0000 && Pow2(63) == 0x8000_0000_0000_0000
  {
    Pow2Four(0); Pow2Four(4); Pow2Four(8); Pow2Four(12);
    Pow2Four(16); Pow2Four(20); Pow2Four(24); Pow2Four(28);
    Pow2Four(32); Pow2Four(36); Pow2Four(40); Pow2Four(44);
    Pow2Four(48); Pow2Four(52); Pow2Four(56); Pow2Four(60);
    assert Pow2(32) == 2 * Pow2(31) && Pow2(64) == 2 * Pow2(63);
  }

  lemma {:induction false} ShlIsProduct(h: nat, n: nat)
    ensures Shl(h, n) == h * Pow2(n)
    decreases n
  {
    if n > 0 { ShlIsProduct(h, n - 1); }
  }

  lemma SmallModulus(x: nat)
    requires x < U32
    ensures x % U32 == x
  {
  }

  // ----- exclusive-or -----

  lemma {:induction false} XorComm(a: nat, b: nat)
    ensures Xor(a, b) == Xor(b, a)
  {
    if a != 0 || b != 0 { XorComm(a / 2, b / 2); }
  }

  lemma {:induction false} XorZero(a: nat)
    ensures Xor(a, 0) == a && Xor(0, a) == a
  {
    if a != 0 { XorZero(a / 2); }
  }

  lemma XorDigits(a: nat, b: nat)
    ensures Xor(a, b) / 2 == Xor(a / 2, b / 2)
    ensures Xor(a, b) % 2 == if a % 2 != b % 2 then 1 else 0
  {
  }

  lemma {:induction false} XorAssoc(a: nat, b: nat, c: nat)
    ensures Xor(Xor(a, b), c) == Xor(a, Xor(b, c))
    decreases a + b + c
  {
    if a + b + c > 0 {
      XorAssoc(a / 2, b / 2, c / 2);
      XorDigits(a, b);
      XorDigits(b, c);
      XorDigits(Xor(a, b), c);
      XorDigits(a, Xor(b, c));
    } else {
      XorZero(0);
    }
  }

  lemma {:induction false} XorSelf(a: nat)
    ensures Xor(a, a) == 0
  {
    if a != 0 { XorSelf(a / 2); }
  }

  lemma XorCancel(a: nat, b: nat, c: nat)
    requires Xor(a, c) == Xor(b, c)
    ensures a == b
  {
    XorAssoc(a, c, c);
    XorAssoc(b, c, c);
    XorSelf(c);
    XorZero(a);
    XorZero(b);
  }

  lemma XorSwap(a: nat, b: nat, c: nat)
    ensures Xor(Xor(a, b), c) == Xor(Xor(a, c), b)
  {
    XorAssoc(a, b, c);
    XorAssoc(a, c, b);
    XorComm(b, c);
  }

  lemma {:induction false} XorBound(a: nat, b: nat, n: nat)
    requires a < Pow2(n) && b < Pow2(n)
    ensures Xor(a, b) < Pow2(n)
    decreases n
  {
    if n > 0 { XorBound(a / 2, b / 2, n - 1); }
  }

  lemma {:induction false} XorDisjoint(lo: nat, h: nat, n: nat)
    requires lo < Pow2(n)
    ensures Xor(lo, Shl(h, n)) == lo + Shl(h, n)
    decreases n
  {
    if n == 0 {
      XorZero(h);
    } else {
      XorDisjoint(lo / 2, h, n - 1);
      XorDigits(lo, Shl(h, n));
    }
  }

  lemma {:induction false} XorShr(a: nat, b: nat, n: nat)
    ensures Shr(Xor(a, b), n) == Xor(Shr(a, n), Shr(b, n))
    decreases n
  {
    if n > 0 {
      XorDigits(a, b);
      XorShr(a / 2, b / 2, n - 1);
    }
  }

  lemma {:induction false} ShrIsDivision(a: nat, n: nat)
    ensures Shr(a, n) == a / Pow2(n)
    decreases n
  {
    if n > 0 {
      ShrIsDivision(a / 2, n - 1);
      DivDiv(a, 2, Pow2(n - 1));
    }
  }

  lemma DivDiv(a: nat, b: nat, c: nat)
    requires b > 0 && c > 0
    ensures b * c > 0 && (a / b) / c == a / (b * c)
  {
    var q, r := a / b, a % b;
    var q', r' := q / c, q % c;
    assert a == b * (c * q' + r') + r == (b * c) * q' + (b * r' + r) by { Distribute(b, c, q', r'); }
    assert b * r' + r < b * c by { MulStep(b, r', c); }
    QuotientUnique(a, b * c, q', b * r' + r);
  }

  lemma Distribute(b: nat, c: nat, q: nat, r: nat)
    ensures b * (c * q + r) == (b * c) * q + b * r
  {
  }

  lemma MulStep(b: nat, r: nat, c: nat)
    requires r < c
    ensures b * r + b <= b * c
  {
    assert b * c == b * (r + 1) + b * (c - r - 1);
  }

  lemma QuotientUnique(a: nat, d: nat, q: nat, r: nat)
    requires d > 0 && r < d && a == d * q + r
    ensures a / d == q
  {
    var q' := a / d;
    assert a == d * q' + a % d;
    if q' < q { MulStep(d, q', q); }
    if q < q' { MulStep(d, q, q'); }
  }

  // ----- conjunction -----

  function And(a: nat, b: nat): nat {
    if a == 0 || b == 0 then 0
    else (if a % 2 == 1 && b % 2 == 1 then 1 else 0) + 2 * And(a / 2, b / 2)
  }

  lemma {:induction false} AndShr(a: nat, b: nat, n: nat)
    ensures Shr(And(a, b), n) == And(Shr(a, n), Shr(b, n))
    decreases n
  {
    if n > 0 {
      if a == 0 || b == 0 {
        ShrIsDivision(0, n);
      }
      AndShr(a / 2, b / 2, n - 1);
    }
  }

  lemma {:induction false} AndBound(a: nat, b: nat)
    ensures And(a, b) <= a
  {
    if a != 0 && b != 0 { AndBound(a / 2, b / 2); }
  }

  // ----- disjunction -----

  function Or(a: nat, b: nat): nat {
    if a == 0 && b == 0 then 0
    else (if a % 2 == 1 || b % 2 == 1 then 1 else 0) + 2 * Or(a / 2, b / 2)
  }

  lemma {:induction false} OrShr(a: nat, b: nat, n: nat)
    ensures Shr(Or(a, b), n) == Or(Shr(a, n), Shr(b, n))
    decreases n
  {
    if n > 0 { OrShr(a / 2, b / 2, n - 1); }
  }

  lemma {:induction false} OrBound(a: nat, b: nat, n: nat)
    requires a < Pow2(n) && b < Pow2(n)
    ensures Or(a, b) < Pow2(n)
    decreases n
  {
    if n > 0 { OrBound(a / 2, b / 2, n - 1); }
  }

  lemma {:induction false} OrZero(a: nat)
    ensures Or(0, a) == a
  {
    if a != 0 { OrZero(a / 2); }
  }

  // Digits that do not meet: joining them is adding.
  lemma {:induction false} OrDisjoint(lo: nat, h: nat, n: nat)
    requires lo < Pow2(n)
    ensures Or(lo, Shl(h, n)) == lo + Shl(h, n)
    decreases n
  {
    if n == 0 {
      OrZero(h);
    } else {
      OrDisjoint(lo / 2, h, n - 1);
      assert Shl(h, n) % 2 == 0 && Shl(h, n) / 2 == Shl(h, n - 1);
    }
  }

  // ----- digits -----

  predicate Digit(a: nat, n: nat) {
    Shr(a, n) % 2 == 1
  }

  lemma XorDigit(a: nat, b: nat, n: nat)
    ensures Digit(Xor(a, b), n) <==> Digit(a, n) != Digit(b, n)
  {
    XorShr(a, b, n);
    XorDigits(Shr(a, n), Shr(b, n));
  }

  lemma AndDigit(a: nat, b: nat, n: nat)
    ensures Digit(And(a, b), n) <==> Digit(a, n) && Digit(b, n)
  {
    AndShr(a, b, n);
  }

  lemma OrDigit(a: nat, b: nat, n: nat)
    ensures Digit(Or(a, b), n) <==> Digit(a, n) || Digit(b, n)
  {
    OrShr(a, b, n);
  }

  lemma {:induction false} PowDigit(k: nat, n: nat)
    ensures Digit(Pow2(k), n) <==> k == n
    decreases n
  {
    if n > 0 && k > 0 {
      PowDigit(k - 1, n - 1);
    } else if n > 0 {
      ShrIsDivision(0, n - 1);
    }
  }

  // The complement of a below 2^n.
  lemma {:induction false} ComplementDigit(a: nat, n: nat, i: nat)
    requires a < Pow2(n) && i < n
    ensures Digit(Pow2(n) - 1 - a, i) <==> !Digit(a, i)
    decreases n
  {
    if i > 0 {
      ComplementDigit(a / 2, n - 1, i - 1);
      assert (Pow2(n) - 1 - a) / 2 == Pow2(n - 1) - 1 - a / 2;
    }
  }

  lemma {:induction false} ShrShr(a: nat, m: nat, n: nat)
    ensures Shr(Shr(a, m), n) == Shr(a, m + n)
    decreases m
  {
    if m > 0 { ShrShr(a / 2, m - 1, n); }
  }

  // `x & (1 << n)` is zero exactly when digit n is.
  lemma {:induction false} AndOneDigit(a: nat, n: nat)
    ensures And(a, Pow2(n)) != 0 <==> Digit(a, n)
    decreases n
  {
    if n > 0 {
      AndOneDigit(a / 2, n - 1);
      if a == 0 { ShrIsDivision(0, n); }
    }
  }


  lemma {:induction false} LowBitsXor(a: nat, b: nat, n: nat)
    ensures forall i :: 0 <= i < n ==> LowBits(Xor(a, b), n)[i] == (LowBits(a, n)[i] != LowBits(b, n)[i])
    decreases n
  {
    if n > 0 {
      XorDigits(a, b);
      LowBitsXor(a / 2, b / 2, n - 1);
    }
  }

  lemma {:induction false} LowBitsGrow(w: nat, n: nat)
    requires w < Pow2(n)
    ensures LowBits(w, n + 1) == LowBits(w, n) + [false]
    decreases n
  {
    if n > 0 {
      LowBitsGrow(w / 2, n - 1);
      assert LowBits(w, n + 1) == [w % 2 == 1] + LowBits(w / 2, n);
    } else {
      assert LowBits(0, 1) == [false] + LowBits(0, 0);
    }
  }

  lemma {:induction false} LowBitsOnes(n: nat)
    ensures LowBits(Pow2(n) - 1, n) == seq(n, i => true)
    decreases n
  {
    if n > 0 {
      LowBitsOnes(n - 1);
      var w := Pow2(n) - 1;
      assert w % 2 == 1 && w / 2 == Pow2(n - 1) - 1;
      assert LowBits(w, n) == [true] + LowBits(w / 2, n - 1);
    }
  }

  // ----- little-endian layout -----

  // sizeof of the unsigned types.
  const SIZE8: nat := 1
  const SIZE32: nat := 4
  const SIZE64: nat := 8

  function Pow256(n: nat): (p: nat)
    ensures p > 0
  {
    if n == 0 then 1 else 256 * Pow256(n - 1)
  }

  // The n low-order bytes of `v`, lowest first.
  function Le(v: nat, n: nat): (s: seq<byte>)
    ensures |s| == n
    decreases n
  {
    if n == 0 then [] else [v % 256] + Le(v / 256, n - 1)
  }

  function FromLe(s: seq<byte>): nat {
    if s == [] then 0 else s[0] + 256 * FromLe(s[1..])
  }

  lemma Pow256Sizes()
    ensures Pow256(1) == 256 && Pow256(2) == 0x1_0000 && Pow256(3) == 0x100_0000
    ensures Pow256(4) == U32 && Pow256(8) == U64
  {
    assert Pow256(3) == 256 * Pow256(2) && Pow256(5) == 256 * Pow256(4) && Pow256(7) == 256 * Pow256(6);
  }

  lemma {:induction false} FromLeBound(s: seq<byte>)
    ensures FromLe(s) < Pow256(|s|)
  {
    if s != [] { FromLeBound(s[1..]); }
  }

  /** The bytes of a field, lowest first. */
  lemma {:induction false} LeByte(v: nat, n: nat, i: nat)
    requires i < n
    ensures Le(v, n)[i] == v / Pow256(i) % 256
    decreases n
  {
    if i > 0 {
      LeByte(v / 256, n - 1, i - 1);
      DivDiv(v, 256, Pow256(i - 1));
    }
  }

  lemma {:induction false} LeRoundTrip(v: nat, n: nat)
    requires v < Pow256(n)
    ensures FromLe(Le(v, n)) == v
    decreases n
  {
    if n > 0 {
      LeRoundTrip(v / 256, n - 1);
      assert Le(v, n)[1..] == Le(v / 256, n - 1);
    }
  }

  predicate FieldFits(v: nat, n: nat) {
    (n == SIZE8 && v < 256) || (n == SIZE32 && v < U32) || (n == SIZE64 && v < U64)
  }

  /** Fields of 1, 4 and 8 bytes give back the value stored in them. */
  lemma FieldRoundTrip(v: nat, n: nat)
    requires FieldFits(v, n)
    ensures FromLe(Le(v, n)) == v
  {
    Pow256Sizes();
    LeRoundTrip(v, n);
  }

  lemma Assoc(a: seq<byte>, b: seq<byte>, c: seq<byte>)
    ensures (a + b) + c == a + (b + c)
  {
  }
}
