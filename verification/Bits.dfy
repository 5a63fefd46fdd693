/** Machine words as natural numbers: powers of two, right shifts and exclusive or. */
module Bits {

  function Pow2(n: nat): (p: nat)
    ensures p >= 1
  {
    if n == 0 then 1 else 2 * Pow2(n - 1)
  }

  /** `x >> r`. */
  function Shr(x: nat, r: nat): nat {
    if r == 0 then x else Shr(x, r - 1) / 2
  }

  /** `a ^ b`, bit by bit. */
  function Xor(a: nat, b: nat): nat
    decreases a + b
  {
    if a == 0 && b == 0 then 0 else (if a % 2 == b % 2 then 0 else 1) + 2 * Xor(a / 2, b / 2)
  }

  lemma {:induction false} Pow2Mono(m: nat, n: nat)
    requires m <= n
    ensures Pow2(m) <= Pow2(n)
    ensures m < n ==> 2 * Pow2(m) <= Pow2(n)
    decreases n - m
  {
    if m < n { Pow2Mono(m, n - 1); }
  }

  lemma {:induction false} Pow2Add(m: nat, n: nat)
    ensures Pow2(m + n) == Pow2(m) * Pow2(n)
    decreases n
  {
    if n > 0 {
      Pow2Add(m, n - 1);
      assert m + n - 1 + 1 == m + n;
      assert Pow2(m) * (2 * Pow2(n - 1)) == 2 * (Pow2(m) * Pow2(n - 1));
    }
  }

  lemma Pow2Values()
    ensures Pow2(1) == 2 && Pow2(2) == 4 && Pow2(4) == 0x10 && Pow2(8) == 0x100 && Pow2(16) == 0x1_0000
    ensures Pow2(12) == 0x1000 && Pow2(31) == 0x8000_0000 && Pow2(32) == 0x1_0000_0000
  {
    assert Pow2(16) == 0x1_0000;
    assert Pow2(24) == 0x100_0000;
    assert Pow2(31) == 0x8000_0000;
    assert Pow2(32) == 2 * Pow2(31);
  }

  // ---------- Shifts ----------

  /** The shift is the quotient by the power of two. */
  lemma {:induction false} ShrBounds(x: nat, r: nat)
    ensures Shr(x, r) * Pow2(r) <= x < Shr(x, r) * Pow2(r) + Pow2(r)
  {
    if r > 0 {
      ShrBounds(x, r - 1);
      HalfProduct(Shr(x, r - 1), Pow2(r - 1));
    }
  }

  lemma HalfProduct(q: nat, p: nat)
    ensures q * p == (q / 2) * (2 * p) + (if q % 2 == 1 then p else 0)
  {
    var h := q / 2;
    assert q == h + h + q % 2;
    assert (h + h + q % 2) * p == h * p + h * p + (q % 2) * p;
    assert h * (2 * p) == h * p + h * p;
  }

  lemma {:induction false} MulLess(a: nat, b: nat, p: nat)
    requires a < b
    ensures a * p + p <= b * p
  {
    assert b * p == (b - 1) * p + p;
    if a < b - 1 { MulLess(a, b - 1, p); }
  }

  lemma ShrUnique(x: nat, r: nat, q: nat)
    requires q * Pow2(r) <= x < q * Pow2(r) + Pow2(r)
    ensures Shr(x, r) == q
  {
    ShrBounds(x, r);
    var s, p := Shr(x, r), Pow2(r);
    if s < q {
      MulLess(s, q, p);
    } else if q < s {
      MulLess(q, s, p);
    }
  }

  lemma {:induction false} ShrNest(x: nat, y: nat, r: nat, s: nat)
    requires r <= s && Shr(x, r) == Shr(y, r)
    ensures Shr(x, s) == Shr(y, s)
    decreases s - r
  {
    if r < s { ShrNest(x, y, r, s - 1); }
  }

  lemma {:induction false} ShrHalf(x: nat, r: nat)
    ensures Shr(x / 2, r) == Shr(x, r + 1)
  {
    if r > 0 { ShrHalf(x, r - 1); }
  }

  // ---------- Exclusive or ----------

  lemma {:induction false} XorZero(a: nat)
    ensures Xor(a, 0) == a && Xor(0, a) == a
  {
    if a > 0 { XorZero(a / 2); }
  }

  lemma {:induction false} XorSelf(a: nat)
    ensures Xor(a, a) == 0
  {
    if a > 0 { XorSelf(a / 2); }
  }

  lemma {:induction false} XorComm(a: nat, b: nat)
    ensures Xor(a, b) == Xor(b, a)
    decreases a + b
  {
    if a + b > 0 { XorComm(a / 2, b / 2); }
  }

  /** The last bit and the rest of an exclusive or. */
  lemma XorParts(a: nat, b: nat)
    ensures Xor(a, b) / 2 == Xor(a / 2, b / 2)
    ensures Xor(a, b) % 2 == if a % 2 == b % 2 then 0 else 1
  {
  }

  lemma {:induction false} XorAssoc(a: nat, b: nat, c: nat)
    ensures Xor(Xor(a, b), c) == Xor(a, Xor(b, c))
    decreases a + b + c
  {
    if a + b + c > 0 {
      XorAssoc(a / 2, b / 2, c / 2);
      XorLastBits(a, b, c);
      XorParts(a, b);
      XorParts(b, c);
      XorParts(Xor(a, b), c);
      XorParts(a, Xor(b, c));
      SameNat(Xor(Xor(a, b), c), Xor(a, Xor(b, c)));
    }
  }

  lemma XorLastBits(a: nat, b: nat, c: nat)
    ensures Xor(Xor(a, b), c) % 2 == Xor(a, Xor(b, c)) % 2
  {
    XorParts(a, b);
    XorParts(b, c);
    XorParts(Xor(a, b), c);
    XorParts(a, Xor(b, c));
  }

  lemma SameNat(l: nat, r: nat)
    requires l / 2 == r / 2 && l % 2 == r % 2
    ensures l == r
  {
  }

  /** Two operands each regrouped: the pattern every linearity proof needs. */
  lemma XorShuffle(a: nat, b: nat, c: nat, d: nat)
    ensures Xor(Xor(a, b), Xor(c, d)) == Xor(Xor(a, c), Xor(b, d))
  {
    XorAssoc(a, b, Xor(c, d));
    XorAssoc(b, c, d);
    XorComm(b, c);
    XorAssoc(c, b, d);
    XorAssoc(a, c, Xor(b, d));
  }

  lemma XorCancel(a: nat, b: nat)
    ensures Xor(Xor(a, b), b) == a
    ensures Xor(a, b) == 0 <==> a == b
  {
    XorAssoc(a, b, b);
    XorSelf(b);
    XorZero(a);
    XorZero(b);
  }

  lemma {:induction false} XorBound(a: nat, b: nat, n: nat)
    requires a < Pow2(n) && b < Pow2(n)
    ensures Xor(a, b) < Pow2(n)
  {
    if n > 0 { XorBound(a / 2, b / 2, n - 1); }
  }

  /** A low operand leaves the leading bit of the other in place. */
  lemma {:induction false} XorLeading(a: nat, b: nat, n: nat)
    requires Pow2(n) <= a < Pow2(n + 1) && b < Pow2(n)
    ensures Pow2(n) <= Xor(a, b) < Pow2(n + 1)
  {
    if n > 0 { XorLeading(a / 2, b / 2, n - 1); } else { XorZero(a); }
  }

  /** Exclusive or with a single bit adds it where it is clear and removes it where it is set. */
  lemma {:induction false} XorPow2(x: nat, r: nat)
    ensures Xor(x, Pow2(r)) == if Shr(x, r) % 2 == 0 then x + Pow2(r) else x - Pow2(r)
  {
    var p := Pow2(r);
    XorParts(x, p);
    if r == 0 {
      XorZero(x / 2);
    } else {
      XorPow2(x / 2, r - 1);
      ShrHalf(x, r - 1);
      assert p / 2 == Pow2(r - 1) && p % 2 == 0;
      var y := if Shr(x, r) % 2 == 0 then x + p else x - p;
      assert Xor(x, p) / 2 == Xor(x / 2, p / 2) == if Shr(x, r) % 2 == 0 then x / 2 + p / 2 else x / 2 - p / 2;
      assert y == 2 * (if Shr(x, r) % 2 == 0 then x / 2 + p / 2 else x / 2 - p / 2) + x % 2;
    }
  }

  lemma DivUnique(x: nat, p: nat, q: nat)
    requires p > 0 && q * p <= x < q * p + p
    ensures x / p == q
  {
    var d := x / p;
    assert x == d * p + x % p;
    if d < q { MulLess(d, q, p); } else if q < d { MulLess(q, d, p); }
  }

  lemma ShrIsDiv(x: nat, r: nat)
    ensures Shr(x, r) == x / Pow2(r)
  {
    ShrBounds(x, r);
    DivUnique(x, Pow2(r), Shr(x, r));
  }

  /** Equal leading bits cancel. */
  lemma XorTop(a: nat, b: nat, n: nat)
    requires a < Pow2(n) && b < Pow2(n)
    ensures Xor(Pow2(n) + a, Pow2(n) + b) == Xor(a, b)
  {
    var p := Pow2(n);
    ShrUnique(a, n, 0);
    ShrUnique(b, n, 0);
    XorPow2(a, n);
    XorPow2(b, n);
    XorShuffle(a, p, b, p);
    XorSelf(p);
    XorZero(Xor(a, b));
  }
}
