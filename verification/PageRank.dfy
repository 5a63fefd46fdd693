/** get_pagerank and the shift-and-test logarithm it rests on. */
module PageRank {
  import opened Bits
  import opened Pool

  const WORD: nat := 0x1_0000_0000
  const PAGESIZE_SHIFT: nat := 12

  /** `x << n` before truncation. */
  ghost function Shl(x: nat, n: nat): nat {
    if n == 0 then x else 2 * Shl(x, n - 1)
  }

  lemma {:induction false} ShlProduct(x: nat, n: nat)
    ensures Shl(x, n) == x * Pow2(n)
  {
    if n > 0 { ShlProduct(x, n - 1); }
  }

  lemma {:induction false} ShlTwice(x: nat, m: nat, n: nat)
    ensures Shl(Shl(x, m), n) == Shl(x, m + n)
  {
    if n > 0 { ShlTwice(x, m, n - 1); }
  }

  /** One test-and-shift: when the top `s` bits are clear, nothing is lost by shifting left by `s`. */
  lemma ShiftStep(x0: nat, x: nat, r: int, s: nat)
    requires s <= r <= 31 && x == Shl(x0, 31 - r)
    ensures x * Pow2(s) == Shl(x0, 31 - (r - s))
  {
    ShlTwice(x0, 31 - r, s);
    ShlProduct(x, s);
  }

  lemma TopBitSet(x0: nat, r: int)
    requires 0 <= r <= 31 && 0x8000_0000 <= Shl(x0, 31 - r) < WORD
    ensures Pow2(r) <= x0 < Pow2(r + 1)
  {
    Pow2Values();
    Pow2Add(r, 31 - r);
    Pow2Add(r + 1, 31 - r);
    ShlProduct(x0, 31 - r);
    var p := Pow2(31 - r);
    if x0 < Pow2(r) { MulLess(x0, Pow2(r), p); }
    if Pow2(r + 1) < x0 { MulLess(Pow2(r + 1), x0, p); }
  }

  /** One test of log2: when the word is below `cut`, its top `s` bits are clear and are shifted out. */
  method TestAndShift(ghost x0: nat, x: nat, r: nat, s: nat, k: nat, cut: nat) returns (x': nat, r': nat)
    requires s <= r <= 31 && k == Pow2(s) && k * cut == WORD && x == Shl(x0, 31 - r)
    requires cut <= x * k && x < WORD
    ensures r - s <= r' <= r && x' == Shl(x0, 31 - r') && cut <= x' < WORD
  {
    x', r' := x, r;
    if x < cut {
      ShiftStep(x0, x, r, s);
      MulLess(x, cut, k);
      x' := x * k % WORD;
      r' := r - s;
    }
  }

  /** log2: the floor of the logarithm of a non-zero 32-bit word, -1 for zero. */
  method Log2(x0: nat) returns (r: int)
    requires x0 < WORD
    ensures if x0 == 0 then r == -1 else 0 <= r <= 31 && Pow2(r) <= x0 < Pow2(r + 1)
  {
    Pow2Values();
    if x0 == 0 { return -1; }
    var x;
    x, r := TestAndShift(x0, x0, 31, 16, 0x1_0000, 0x1_0000);
    x, r := TestAndShift(x0, x, r, 8, 0x100, 0x100_0000);
    x, r := TestAndShift(x0, x, r, 4, 0x10, 0x1000_0000);
    x, r := TestAndShift(x0, x, r, 2, 4, 0x4000_0000);
    x, r := TestAndShift(x0, x, r, 1, 2, 0x8000_0000);
    TopBitSet(x0, r);
  }

  /** The least rank whose blocks hold `size` bytes, for every 32-bit size. */
  method GetPageRank(size: nat) returns (rank: nat)
    requires size < WORD
    ensures size <= Pow2(rank) * PAGE_SIZE
    ensures rank > 0 ==> Pow2(rank - 1) * PAGE_SIZE < size
  {
    Pow2Values();
    var i := Log2(size);
    if i < PAGESIZE_SHIFT {
      Pow2Mono(i + 1, PAGESIZE_SHIFT);
      return 0;
    }
    PagesShift(i - PAGESIZE_SHIFT);
    PagesShift(i - PAGESIZE_SHIFT + 1);
    if Pow2(i) < size { return i - PAGESIZE_SHIFT + 1; }
    rank := i - PAGESIZE_SHIFT;
    if rank > 0 {
      PagesShift(rank - 1);
      Pow2Mono(i - 1, i);
    }
  }

  /** 2^rank pages are 2^(rank + PAGESIZE_SHIFT) bytes. */
  lemma PagesShift(rank: nat)
    ensures Pow2(rank + PAGESIZE_SHIFT) == Pow2(rank) * PAGE_SIZE
  {
    Pow2Add(rank, PAGESIZE_SHIFT);
    Pow2Values();
  }
}
