/** crc32_raw: the bit-serial remainder register, as polynomial arithmetic over GF(2). */
module Crc {
  import opened Bits
  import opened Memory

  const WORD: nat := 0x1_0000_0000
  const TOP: nat := 0x8000_0000
  const POLY: nat := 0x04C1_1DB7
  // x^32 plus POLY: the generator of clause 3.2.9 of IEEE Std 802.3.
  const GEN: nat := 0x1_04C1_1DB7

  /** The generator polynomial, term by term, and POLY as all of it but the highest. */
  lemma GeneratorTerms()
    ensures GEN == Pow2(32) + Pow2(26) + Pow2(23) + Pow2(22) + Pow2(16) + Pow2(12) + Pow2(11) + Pow2(10)
                 + Pow2(8) + Pow2(7) + Pow2(5) + Pow2(4) + Pow2(2) + Pow2(1) + Pow2(0)
    ensures GEN == Pow2(32) + POLY && TOP == Pow2(31) && WORD == Pow2(32)
  {
    Pow2Values();
    assert Pow2(5) == 2 * Pow2(4) && Pow2(7) == 8 * Pow2(4) by { assert Pow2(6) == 2 * Pow2(5); }
    assert Pow2(10) == 4 * Pow2(8) by { assert Pow2(9) == 2 * Pow2(8); }
    assert Pow2(11) == 2 * Pow2(10);
    Pow2Add(16, 10);
    Pow2Add(16, 7);
    Pow2Add(16, 6);
  }

  type bit = b: nat | b < 2

  // ---------- Bits of a buffer ----------

  /** The bits of a number, most significant first. */
  function Digits(x: nat, n: nat): (s: seq<bit>)
    ensures |s| == n
  {
    if n == 0 then [] else Digits(x / 2, n - 1) + [x % 2]
  }

  function BitsOf(buf: seq<u8>): (s: seq<bit>)
    ensures |s| == 8 * |buf|
  {
    if buf == [] then [] else BitsOf(buf[..|buf| - 1]) + Digits(buf[|buf| - 1], 8)
  }

  /** The number a bit string denotes: the message polynomial evaluated at 2, coefficient by coefficient. */
  function Value(s: seq<bit>): nat {
    if s == [] then 0 else 2 * Value(s[..|s| - 1]) + s[|s| - 1]
  }

  /** Big-endian bytes of a 32-bit word. */
  function BigEndian(w: nat): seq<u8>
    requires w < WORD
  {
    [w / 0x100_0000, w / 0x1_0000 % 256, w / 0x100 % 256, w % 256]
  }

  // ---------- The register ----------

  function Reduce(t: nat): nat {
    if t >= WORD then Xor(t, GEN) else t
  }

  /** One round of the loop of crc32_raw: shift a bit in, then reduce the 33-bit number by the generator. */
  function Step(reg: nat, b: bit): nat {
    Reduce(2 * reg + b)
  }

  function Feed(reg: nat, s: seq<bit>): nat {
    if s == [] then reg else Step(Feed(reg, s[..|s| - 1]), s[|s| - 1])
  }

  function CrcRaw(buf: seq<u8>): nat {
    Feed(0, BitsOf(buf))
  }

  /** crc32: the register after the message followed by 32 zero bits. */
  function CrcOf(buf: seq<u8>): nat {
    Feed(0, BitsOf(buf) + Zeros(32))
  }

  /** Dropping the carry and applying POLY is the same as applying the whole generator. */
  lemma CarryIsReduction(t: nat)
    requires WORD <= t < 2 * WORD
    ensures Xor(t - WORD, POLY) == Reduce(t) < WORD
  {
    Pow2Values();
    XorTop(t - WORD, POLY, 32);
    XorBound(t - WORD, POLY, 32);
  }

  lemma StepRange(reg: nat, b: bit)
    requires reg < WORD
    ensures Step(reg, b) < WORD
  {
    if 2 * reg + b >= WORD { CarryIsReduction(2 * reg + b); }
  }

  lemma {:induction false} FeedRange(reg: nat, s: seq<bit>)
    requires reg < WORD
    ensures Feed(reg, s) < WORD
  {
    if s != [] {
      FeedRange(reg, s[..|s| - 1]);
      StepRange(Feed(reg, s[..|s| - 1]), s[|s| - 1]);
    }
  }

  lemma {:induction false} DigitAt(x: nat, n: nat, i: nat)
    requires i < n
    ensures Digits(x, n)[i] == Shr(x, n - 1 - i) % 2
  {
    if i < n - 1 {
      DigitAt(x / 2, n - 1, i);
      ShrHalf(x, n - 2 - i);
    }
  }

  /** Bit k of a buffer is bit k % 8, from the top, of byte k / 8. */
  lemma {:induction false} BitAt(buf: seq<u8>, k: nat)
    requires k < 8 * |buf|
    ensures BitsOf(buf)[k] == Shr(buf[k / 8], 7 - k % 8) % 2
  {
    var m := |buf| - 1;
    if k / 8 == m {
      DigitAt(buf[m], 8, k - 8 * m);
    } else {
      BitAt(buf[..m], k);
    }
  }

  lemma TopBit(reg: nat, b: bit)
    requires reg < WORD
    ensures reg / TOP == 0 || reg / TOP == 1
    ensures reg * 2 % WORD + b == 2 * reg + b - WORD * (reg / TOP) < WORD
  {
  }

  /** The register part of one round of crc32_raw. */
  method ShiftIn(reg: nat, b: bit) returns (reg': nat)
    requires reg < WORD
    ensures reg' == Step(reg, b) < WORD
  {
    ghost var t := 2 * reg + b;
    TopBit(reg, b);
    if t >= WORD { CarryIsReduction(t); }
    var carry := reg / TOP;
    reg' := reg * 2 % WORD;
    reg' := reg' + b;
    if carry != 0 {
      reg' := Xor(reg', POLY);
    }
  }

  /** `curbyte & bitflag`, for a flag with one bit set. */
  function Tested(curbyte: nat, bitflag: nat): bit {
    if bitflag > 0 && curbyte / bitflag % 2 != 0 then 1 else 0
  }

  /** The flag for the bit after this one, within a byte. */
  ghost predicate FlagFor(flag: nat, k: nat) {
    flag == Pow2(7 - k % 8)
  }

  /** crc32_raw. `bitoff` is a 32-bit counter, so the length stays below 2^29. */
  method Crc32Raw(buf: seq<u8>) returns (reg: nat)
    requires |buf| < 0x2000_0000
    ensures reg == CrcRaw(buf) < WORD
  {
    var bitoff: nat, bitflag: nat, curbyte: nat := 0, 0x80, 0;
    reg := 0;
    ghost var s := BitsOf(buf);
    while bitoff / 8 < |buf|
      invariant 0 <= bitoff <= 8 * |buf| && reg == Feed(0, s[..bitoff]) && reg < WORD
      invariant bitoff % 8 > 0 ==> curbyte == buf[bitoff / 8] && FlagFor(bitflag, bitoff - 1)
      decreases 8 * |buf| - bitoff
    {
      FlagShift(bitflag, bitoff);
      if bitoff % 8 == 0 {
        curbyte := buf[bitoff / 8];
        bitflag := 0x80;
      } else {
        bitflag := bitflag / 2;
      }
      FlagBit(buf, bitoff, curbyte, bitflag);
      NextByte(bitoff);
      FeedNext(s, bitoff);
      reg := ShiftIn(reg, Tested(curbyte, bitflag));
      bitoff := bitoff + 1;
    }
    assert s[..bitoff] == s;
  }

  /** crc32: a second pass over the register of the first does for the zero bits. */
  method Crc32(buf: seq<u8>) returns (crc: nat)
    requires |buf| < 0x2000_0000
    ensures crc == CrcOf(buf) < WORD
  {
    var r := Crc32Raw(buf);
    var rBuff := [r / 0x100_0000 % 256, r / 0x1_0000 % 256, r / 0x100 % 256, r % 256, 0, 0, 0, 0];
    assert r / 0x100_0000 < 256;
    assert rBuff == BigEndian(r) + [0, 0, 0, 0];
    SecondPass(buf);
    crc := Crc32Raw(rBuff);
  }

  lemma FeedNext(s: seq<bit>, k: nat)
    requires k < |s|
    ensures Feed(0, s[..k + 1]) == Step(Feed(0, s[..k]), s[k])
  {
    assert s[..k + 1][..k] == s[..k];
  }

  /** Halving the flag moves it on to the next bit of the byte. */
  lemma FlagShift(flag: nat, k: nat)
    ensures k % 8 == 0 ==> FlagFor(0x80, k)
    ensures k % 8 > 0 && FlagFor(flag, k - 1) ==> FlagFor(flag / 2, k)
  {
    Pow2Values();
    assert Pow2(7) == 0x80;
    if k % 8 > 0 { assert (k - 1) % 8 == k % 8 - 1; }
  }

  lemma NextByte(k: nat)
    ensures (k + 1) % 8 > 0 ==> (k + 1) / 8 == k / 8
  {
  }

  lemma FlagBit(buf: seq<u8>, k: nat, curbyte: nat, flag: nat)
    requires k < 8 * |buf| && curbyte == buf[k / 8] && FlagFor(flag, k)
    ensures Tested(curbyte, flag) == BitsOf(buf)[k]
  {
    FlagShr(curbyte, k, flag);
    BitAt(buf, k);
  }

  lemma FlagShr(x: nat, k: nat, flag: nat)
    requires FlagFor(flag, k)
    ensures Tested(x, flag) == Shr(x, 7 - k % 8) % 2
  {
    var r := 7 - k % 8;
    TestedShr(x, r);
  }

  lemma TestedShr(x: nat, r: nat)
    ensures Tested(x, Pow2(r)) == Shr(x, r) % 2
  {
    ShrIsDiv(x, r);
  }

  // ---------- Linearity ----------

  lemma ReduceLinear(s: nat, t: nat)
    requires s < 2 * WORD && t < 2 * WORD
    ensures Reduce(Xor(s, t)) == Xor(Reduce(s), Reduce(t))
  {
    Pow2Values();
    if s >= WORD && t >= WORD {
      XorTop(s - WORD, t - WORD, 32);
      XorBound(s - WORD, t - WORD, 32);
      XorShuffle(s, GEN, t, GEN);
      XorSelf(GEN);
      XorZero(Xor(s, t));
    } else if s >= WORD {
      XorLeading(s, t, 32);
      XorAssoc(s, t, GEN);
      XorComm(t, GEN);
      XorAssoc(s, GEN, t);
    } else if t >= WORD {
      XorComm(s, t);
      XorLeading(t, s, 32);
      XorAssoc(s, t, GEN);
    } else {
      XorBound(s, t, 32);
    }
  }

  function XorBit(a: bit, b: bit): bit {
    if a == b then 0 else 1
  }

  function XorBits(s: seq<bit>, t: seq<bit>): (r: seq<bit>)
    requires |s| == |t|
    ensures |r| == |s| && forall i :: 0 <= i < |s| ==> r[i] == XorBit(s[i], t[i])
  {
    seq(|s|, i requires 0 <= i < |s| => XorBit(s[i], t[i]))
  }

  lemma StepLinear(a: nat, b: nat, x: bit, y: bit)
    requires a < WORD && b < WORD
    ensures Xor(a, b) < WORD && Step(Xor(a, b), XorBit(x, y)) == Xor(Step(a, x), Step(b, y))
  {
    XorWord(a, b);
    XorShiftIn(a, b, x, y);
    ReducedShift(2 * a + x, 2 * b + y, Xor(a, b), XorBit(x, y));
  }

  lemma ReducedShift(s: nat, t: nat, u: nat, z: bit)
    requires s < 2 * WORD && t < 2 * WORD && Xor(s, t) == 2 * u + z
    ensures Step(u, z) == Xor(Reduce(s), Reduce(t))
  {
    ReduceLinear(s, t);
  }

  lemma XorWord(a: nat, b: nat)
    requires a < WORD && b < WORD
    ensures Xor(a, b) < WORD
  {
    Pow2Values();
    XorBound(a, b, 32);
  }

  lemma XorShiftIn(a: nat, b: nat, x: bit, y: bit)
    ensures Xor(2 * a + x, 2 * b + y) == 2 * Xor(a, b) + XorBit(x, y)
  {
    XorParts(2 * a + x, 2 * b + y);
  }

  /** The register is linear in its start value and in the bits fed to it. */
  lemma {:induction false} FeedLinear(a: nat, b: nat, s: seq<bit>, t: seq<bit>)
    requires a < WORD && b < WORD && |s| == |t|
    ensures Xor(a, b) < WORD && Feed(Xor(a, b), XorBits(s, t)) == Xor(Feed(a, s), Feed(b, t))
    decreases |s|
  {
    Pow2Values();
    XorBound(a, b, 32);
    if s != [] {
      var k := |s| - 1;
      FeedLinear(a, b, s[..k], t[..k]);
      FeedRange(a, s[..k]);
      FeedRange(b, t[..k]);
      StepLinear(Feed(a, s[..k]), Feed(b, t[..k]), s[k], t[k]);
      assert XorBits(s, t)[..k] == XorBits(s[..k], t[..k]);
    }
  }

  function Zeros(n: nat): (s: seq<bit>)
    ensures |s| == n
  {
    seq(n, _ => 0)
  }

  /** Start value and message contribute separately. */
  lemma FeedSplit(reg: nat, s: seq<bit>)
    requires reg < WORD
    ensures Feed(reg, s) == Xor(Feed(reg, Zeros(|s|)), Feed(0, s))
  {
    FeedLinear(reg, 0, Zeros(|s|), s);
    XorZero(reg);
    assert XorBits(Zeros(|s|), s) == s;
  }

  lemma FeedSnoc(reg: nat, s: seq<bit>, b: bit)
    ensures Feed(reg, s + [b]) == Step(Feed(reg, s), b)
  {
    assert (s + [b])[..|s|] == s;
  }

  lemma {:induction false} FeedConcat(reg: nat, s: seq<bit>, t: seq<bit>)
    ensures Feed(reg, s + t) == Feed(Feed(reg, s), t)
    decreases |t|
  {
    if t == [] {
      assert s + t == s;
    } else {
      var t', b := t[..|t| - 1], t[|t| - 1];
      assert t == t' + [b] && s + t == (s + t') + [b];
      FeedConcat(reg, s, t');
      FeedSnoc(reg, s + t', b);
      FeedSnoc(Feed(reg, s), t', b);
    }
  }

  // ---------- The register is the polynomial remainder ----------

  /** Product of two polynomials over GF(2), coefficients as bits of a number. */
  function ClMul(a: nat, b: nat): nat {
    if a == 0 then 0 else Xor(2 * ClMul(a / 2, b), if a % 2 == 1 then b else 0)
  }

  /** `r` has degree below 32 and differs from `m` by a multiple of the generator. */
  ghost predicate IsRemainder(m: nat, r: nat) {
    r < WORD && exists q: nat :: m == Xor(ClMul(q, GEN), r)
  }

  lemma {:induction false} FeedQuotient(s: seq<bit>) returns (q: nat)
    ensures Feed(0, s) < WORD && Value(s) == Xor(ClMul(q, GEN), Feed(0, s))
  {
    FeedRange(0, s);
    if s == [] {
      q := 0;
    } else {
      var k := |s| - 1;
      var q0 := FeedQuotient(s[..k]);
      q := QuotientStep(q0, Feed(0, s[..k]), s[k]);
    }
  }

  /** Long division, one bit at a time. */
  lemma QuotientStep(q0: nat, r: nat, b: bit) returns (q: nat)
    requires r < WORD
    ensures 2 * Xor(ClMul(q0, GEN), r) + b == Xor(ClMul(q, GEN), Step(r, b))
  {
    var m, t := ClMul(q0, GEN), 2 * r + b;
    StepRange(r, b);
    XorShiftIn(m, r, 0, b);
    q := if t >= WORD then 2 * q0 + 1 else 2 * q0;
    ClMulStep(q0, GEN);
    if t >= WORD {
      XorAbsorb(2 * m, t, GEN);
    } else {
      XorZero(2 * m);
    }
  }

  lemma ClMulStep(q: nat, g: nat)
    ensures ClMul(2 * q + 1, g) == Xor(2 * ClMul(q, g), g) && ClMul(2 * q, g) == 2 * ClMul(q, g)
  {
    ClMulUnfold(2 * q + 1, g);
    ClMulUnfold(2 * q, g);
    XorZero(2 * ClMul(q, g));
    assert (2 * q + 1) / 2 == q && (2 * q) / 2 == q;
  }

  lemma XorAbsorb(a: nat, b: nat, g: nat)
    ensures Xor(Xor(a, g), Xor(b, g)) == Xor(a, b)
  {
    XorShuffle(a, g, b, g);
    XorSelf(g);
    XorZero(Xor(a, b));
  }

  lemma {:induction false} ClMulLinear(a: nat, b: nat, g: nat)
    ensures ClMul(Xor(a, b), g) == Xor(ClMul(a, g), ClMul(b, g))
    decreases a + b
  {
    if a + b > 0 {
      ClMulLinear(a / 2, b / 2, g);
      XorParts(a, b);
      ClMulUnfold(a, g);
      ClMulUnfold(b, g);
      ClMulUnfold(Xor(a, b), g);
      var x, y := ClMul(a / 2, g), ClMul(b / 2, g);
      XorShuffle(2 * x, if a % 2 == 1 then g else 0, 2 * y, if b % 2 == 1 then g else 0);
      XorShiftIn(x, y, 0, 0);
      OddTerms(a, b, g);
    }
  }

  lemma OddTerms(a: nat, b: nat, g: nat)
    ensures Xor(if a % 2 == 1 then g else 0, if b % 2 == 1 then g else 0) == if a % 2 == b % 2 then 0 else g
  {
    XorSelf(g);
    XorZero(g);
  }

  lemma ClMulUnfold(a: nat, g: nat)
    ensures ClMul(a, g) == Xor(2 * ClMul(a / 2, g), if a % 2 == 1 then g else 0)
  {
  }

  /** A non-zero multiple of the generator has degree at least 32. */
  lemma {:induction false} MultipleDegree(q: nat) returns (n: nat)
    requires q > 0
    ensures n >= 32 && Pow2(n) <= ClMul(q, GEN) < Pow2(n + 1)
  {
    Pow2Values();
    ClMulUnfold(q, GEN);
    if q == 1 {
      n := 32;
      XorZero(GEN);
    } else {
      var m := MultipleDegree(q / 2);
      n := m + 1;
      Pow2Mono(33, n);
      if q % 2 == 1 {
        XorLeading(2 * ClMul(q / 2, GEN), GEN, n);
      } else {
        XorZero(2 * ClMul(q / 2, GEN));
      }
    }
  }

  /** Equal sums with small second parts: the multiples of the generator must agree. */
  lemma SmallDifference(q1: nat, r1: nat, q2: nat, r2: nat)
    requires r1 < WORD && r2 < WORD && Xor(ClMul(q1, GEN), r1) == Xor(ClMul(q2, GEN), r2)
    ensures ClMul(Xor(q1, q2), GEN) == Xor(r1, r2) < WORD
  {
    Pow2Values();
    var a, b := ClMul(q1, GEN), ClMul(q2, GEN);
    ClMulLinear(q1, q2, GEN);
    XorShuffle(a, r1, b, r2);
    XorSelf(Xor(a, r1));
    XorCancel(Xor(a, b), Xor(r1, r2));
    XorBound(r1, r2, 32);
  }

  lemma RemainderUnique(m: nat, r1: nat, r2: nat)
    requires IsRemainder(m, r1) && IsRemainder(m, r2)
    ensures r1 == r2
  {
    var q1: nat :| m == Xor(ClMul(q1, GEN), r1);
    var q2: nat :| m == Xor(ClMul(q2, GEN), r2);
    SmallDifference(q1, r1, q2, r2);
    var q := Xor(q1, q2);
    if q > 0 {
      var n := MultipleDegree(q);
      Pow2Values();
      Pow2Mono(32, n);
    }
    XorCancel(r1, r2);
  }

  /** crc32_raw computes the remainder of the message polynomial by the generator, and nothing else. */
  lemma CrcIsRemainder(buf: seq<u8>, r: nat)
    ensures IsRemainder(Value(BitsOf(buf)), r) <==> r == CrcRaw(buf)
  {
    var q := FeedQuotient(BitsOf(buf));
    if IsRemainder(Value(BitsOf(buf)), r) {
      RemainderUnique(Value(BitsOf(buf)), r, CrcRaw(buf));
    }
  }

  // ---------- Self-check ----------

  /** Up to 32 bits pass through the register unchanged. */
  lemma {:induction false} ShortPassesThrough(s: seq<bit>)
    requires |s| <= 32
    ensures Feed(0, s) == Value(s) < Pow2(|s|)
  {
    if s != [] {
      var k := |s| - 1;
      ShortPassesThrough(s[..k]);
      Pow2Values();
      Pow2Mono(k, 31);
      StepRange(Feed(0, s[..k]), s[k]);
    }
  }

  lemma {:induction false} ValueConcat(s: seq<bit>, t: seq<bit>)
    ensures Value(s + t) == Value(s) * Pow2(|t|) + Value(t)
    decreases |t|
  {
    if t == [] {
      assert s + t == s;
    } else {
      var k := |t| - 1;
      ValueConcat(s, t[..k]);
      assert (s + t)[..|s + t| - 1] == s + t[..k];
      TwiceProduct(Value(s), Pow2(k));
    }
  }

  lemma TwiceProduct(a: nat, b: nat)
    ensures 2 * (a * b) == a * (2 * b)
  {
  }

  lemma {:induction false} ValueDigits(x: nat, n: nat)
    requires x < Pow2(n)
    ensures Value(Digits(x, n)) == x
  {
    if n > 0 { ValueDigits(x / 2, n - 1); }
  }

  /** A buffer read as a big-endian number, byte by byte. */
  lemma ValueAppend(buf: seq<u8>, b: u8)
    ensures Value(BitsOf(buf + [b])) == 256 * Value(BitsOf(buf)) + b
  {
    Pow2Values();
    assert (buf + [b])[..|buf|] == buf;
    ValueConcat(BitsOf(buf), Digits(b, 8));
    ValueDigits(b, 8);
  }

  lemma BigEndianValue(w: nat)
    requires w < WORD
    ensures Value(BitsOf(BigEndian(w))) == w && Feed(0, BitsOf(BigEndian(w))) == w
  {
    var b := BigEndian(w);
    var b1, b2, b3 := [b[0]], [b[0], b[1]], [b[0], b[1], b[2]];
    assert [] + [b[0]] == b1 && b1 + [b[1]] == b2 && b2 + [b[2]] == b3 && b3 + [b[3]] == b;
    ValueAppend([], b[0]);
    ValueAppend(b1, b[1]);
    ValueAppend(b2, b[2]);
    ValueAppend(b3, b[3]);
    Horner(w);
    ShortPassesThrough(BitsOf(b));
  }

  lemma Horner(w: nat)
    requires w < WORD
    ensures 256 * (256 * (256 * (w / 0x100_0000) + w / 0x1_0000 % 256) + w / 0x100 % 256) + w % 256 == w
  {
    assert w / 0x1_0000 == 256 * (w / 0x100_0000) + w / 0x1_0000 % 256;
    assert w / 0x100 == 256 * (w / 0x1_0000) + w / 0x100 % 256;
  }

  lemma {:induction false} BitsConcat(a: seq<u8>, b: seq<u8>)
    ensures BitsOf(a + b) == BitsOf(a) + BitsOf(b)
    decreases |b|
  {
    if b == [] {
      assert a + b == a;
    } else {
      BitsConcat(a, b[..|b| - 1]);
      assert (a + b)[..|a + b| - 1] == a + b[..|b| - 1];
    }
  }

  lemma {:induction false} DigitsZero(n: nat)
    ensures Digits(0, n) == Zeros(n)
  {
    if n > 0 { DigitsZero(n - 1); }
  }

  lemma {:induction false} BitsZero(buf: seq<u8>)
    requires forall i :: 0 <= i < |buf| ==> buf[i] == 0
    ensures BitsOf(buf) == Zeros(8 * |buf|)
  {
    if buf != [] {
      BitsZero(buf[..|buf| - 1]);
      DigitsZero(8);
    }
  }

  /** Shifting the register through 32 zero bits is starting afresh with its big-endian bytes and four zeros. */
  lemma SecondPass(buf: seq<u8>)
    ensures CrcRaw(buf) < WORD && CrcOf(buf) == Feed(CrcRaw(buf), Zeros(32)) < WORD
    ensures CrcRaw(BigEndian(CrcRaw(buf)) + [0, 0, 0, 0]) == CrcOf(buf)
  {
    FeedRange(0, BitsOf(buf));
    FeedConcat(0, BitsOf(buf), Zeros(32));
    var r, zero: seq<u8> := CrcRaw(buf), [0, 0, 0, 0];
    FeedRange(r, Zeros(32));
    BitsConcat(BigEndian(r), zero);
    BitsZero(zero);
    FeedConcat(0, BitsOf(BigEndian(r)), Zeros(32));
    BigEndianValue(r);
  }

  /** crc32 is the remainder of the message polynomial times x^32, and nothing else. */
  lemma CrcIsShiftedRemainder(buf: seq<u8>, c: nat)
    ensures IsRemainder(Value(BitsOf(buf)) * Pow2(32), c) <==> c == CrcOf(buf)
  {
    var m := BitsOf(buf) + Zeros(32);
    ValueConcat(BitsOf(buf), Zeros(32));
    ValueZeros(32);
    var q := FeedQuotient(m);
    if IsRemainder(Value(m), c) { RemainderUnique(Value(m), c, CrcOf(buf)); }
  }

  lemma {:induction false} ValueZeros(n: nat)
    ensures Value(Zeros(n)) == 0
  {
    if n > 0 {
      assert Zeros(n)[..n - 1] == Zeros(n - 1);
      ValueZeros(n - 1);
    }
  }

  /** Byte-wise exclusive or of two messages of one length. */
  function XorBytes(a: seq<u8>, b: seq<u8>): (r: seq<u8>)
    requires |a| == |b|
    ensures |r| == |a|
  {
    if a == [] then []
    else
      var k := |a| - 1;
      XorByte(a[k], b[k]);
      XorBytes(a[..k], b[..k]) + [Xor(a[k], b[k])]
  }

  lemma XorByte(x: u8, y: u8)
    ensures Xor(x, y) < 256
  {
    Pow2Values();
    XorBound(x, y, 8);
  }

  lemma {:induction false} XorDigits(x: nat, y: nat, n: nat)
    ensures Digits(Xor(x, y), n) == XorBits(Digits(x, n), Digits(y, n))
  {
    if n > 0 {
      XorParts(x, y);
      XorDigits(x / 2, y / 2, n - 1);
    }
  }

  lemma {:induction false} BitsOfXor(a: seq<u8>, b: seq<u8>)
    requires |a| == |b|
    ensures BitsOf(XorBytes(a, b)) == XorBits(BitsOf(a), BitsOf(b))
  {
    if a != [] {
      var k := |a| - 1;
      BitsOfXor(a[..k], b[..k]);
      XorDigits(a[k], b[k], 8);
      var r := XorBytes(a, b);
      assert r[..k] == XorBytes(a[..k], b[..k]) && r[k] == Xor(a[k], b[k]);
    }
  }

  /** crc32_raw of the exclusive or of two messages is the exclusive or of theirs. */
  lemma CrcLinear(a: seq<u8>, b: seq<u8>)
    requires |a| == |b|
    ensures CrcRaw(XorBytes(a, b)) == Xor(CrcRaw(a), CrcRaw(b))
  {
    BitsOfXor(a, b);
    XorZero(0);
    FeedLinear(0, 0, BitsOf(a), BitsOf(b));
  }

  /** Appending a message's crc32 makes crc32_raw of the whole zero. */
  lemma SelfCheck(buf: seq<u8>)
    ensures CrcOf(buf) < WORD && CrcRaw(buf + BigEndian(CrcOf(buf))) == 0
  {
    var r, c := CrcRaw(buf), CrcOf(buf);
    SecondPass(buf);
    var t := BitsOf(BigEndian(c));
    BitsConcat(buf, BigEndian(c));
    FeedConcat(0, BitsOf(buf), t);
    FeedSplit(r, t);
    BigEndianValue(c);
    XorSelf(c);
  }

  // ---------- Burst errors ----------

  /** A round is injective in the register: the generator's constant term is 1, so parity tells whether it
      was applied. */
  lemma ReduceInjective(s: nat, t: nat)
    requires s % 2 == t % 2 && Reduce(s) == Reduce(t)
    ensures s == t
  {
    GenFlipsParity(s);
    GenFlipsParity(t);
    XorCancel(s, GEN);
    XorCancel(t, GEN);
  }

  lemma StepInjective(p: nat, q: nat, x: bit)
    requires Step(p, x) == Step(q, x)
    ensures p == q
  {
    var s, t := 2 * p + x, 2 * q + x;
    SameParity(p, q, x);
    ReduceInjective(s, t);
  }

  lemma SameParity(p: nat, q: nat, x: nat)
    ensures (2 * p + x) % 2 == (2 * q + x) % 2
  {
  }

  lemma GenFlipsParity(s: nat)
    ensures Xor(s, GEN) % 2 != s % 2
  {
    XorParts(s, GEN);
  }

  lemma {:induction false} FeedInjective(a: nat, b: nat, s: seq<bit>)
    requires a < WORD && b < WORD && Feed(a, s) == Feed(b, s)
    ensures a == b
    decreases |s|
  {
    if s != [] {
      var s', x := s[..|s| - 1], s[|s| - 1];
      assert s == s' + [x];
      FeedSnoc(a, s', x);
      FeedSnoc(b, s', x);
      FeedRange(a, s');
      FeedRange(b, s');
      StepInjective(Feed(a, s'), Feed(b, s'), x);
      FeedInjective(a, b, s');
    }
  }

  lemma {:induction false} ValueInjective(s: seq<bit>, t: seq<bit>)
    requires |s| == |t| && Value(s) == Value(t)
    ensures s == t
  {
    if s != [] {
      var k := |s| - 1;
      ValueInjective(s[..k], t[..k]);
      assert s == s[..k] + [s[k]] && t == t[..k] + [t[k]];
    }
  }

  /** Bit strings that differ only inside a window of 32 bits leave different registers. */
  lemma BurstChangesRegister(p: seq<bit>, u: seq<bit>, v: seq<bit>, s: seq<bit>)
    requires |u| == |v| <= 32 && u != v
    ensures Feed(0, p + u + s) != Feed(0, p + v + s)
  {
    var r := Feed(0, p);
    FeedRange(0, p);
    FeedConcat(0, p + u, s);
    FeedConcat(0, p + v, s);
    FeedConcat(0, p, u);
    FeedConcat(0, p, v);
    FeedRange(r, u);
    FeedRange(r, v);
    if Feed(0, p + u + s) == Feed(0, p + v + s) {
      FeedInjective(Feed(r, u), Feed(r, v), s);
      FeedSplit(r, u);
      FeedSplit(r, v);
      var z := Feed(r, Zeros(|u|));
      XorComm(z, Feed(0, u));
      XorComm(z, Feed(0, v));
      XorCancel(Feed(0, u), z);
      XorCancel(Feed(0, v), z);
      ShortPassesThrough(u);
      ShortPassesThrough(v);
      ValueInjective(u, v);
    }
  }

  /** The buffers have the same bits outside the window of 32 bits starting at bit `at`. */
  ghost predicate WithinBurst(a: seq<u8>, b: seq<u8>, at: nat) {
    |a| == |b| && forall i :: 0 <= i < 8 * |a| && !(at <= i < at + 32) ==> BitsOf(a)[i] == BitsOf(b)[i]
  }

  lemma {:induction false} BitsInjective(a: seq<u8>, b: seq<u8>)
    requires |a| == |b| && BitsOf(a) == BitsOf(b)
    ensures a == b
  {
    if a != [] {
      var k := |a| - 1;
      SamePieces(BitsOf(a[..k]), Digits(a[k], 8), BitsOf(b[..k]), Digits(b[k], 8));
      BitsInjective(a[..k], b[..k]);
      Pow2Values();
      ValueDigits(a[k], 8);
      ValueDigits(b[k], 8);
      assert a == a[..k] + [a[k]] && b == b[..k] + [b[k]];
    }
  }

  lemma SamePieces(x: seq<bit>, y: seq<bit>, x': seq<bit>, y': seq<bit>)
    requires |x| == |x'| && x + y == x' + y'
    ensures x == x' && y == y'
  {
    assert x == (x + y)[..|x|] && y == (x + y)[|x|..];
    assert x' == (x' + y')[..|x|] && y' == (x' + y')[|x|..];
  }

  /** Any damage confined to 32 consecutive bits, anywhere in the buffer, changes crc32_raw;
      so a codeword, whose crc32_raw is zero, is never mistaken after such damage. */
  lemma BurstDetected(a: seq<u8>, b: seq<u8>, at: nat)
    requires WithinBurst(a, b, at) && a != b
    ensures CrcRaw(a) != CrcRaw(b)
  {
    var s, t, n := BitsOf(a), BitsOf(b), 8 * |a|;
    var lo := if at < n then at else n;
    var hi := if at + 32 < n then at + 32 else n;
    assert s == s[..lo] + s[lo..hi] + s[hi..] && t == t[..lo] + t[lo..hi] + t[hi..];
    assert s[..lo] == t[..lo] && s[hi..] == t[hi..];
    if s[lo..hi] == t[lo..hi] {
      BitsInjective(a, b);
    } else {
      BurstChangesRegister(s[..lo], s[lo..hi], t[lo..hi], s[hi..]);
    }
  }
}
