/**
 * The Internet checksum (section 1 of RFC 1071) and the three places that
 * store it: the echo reply, the IPv4 header and the UDP header.
 */
module Checksum {
  import opened Memory

  type u16 = x: nat | x < 0x1_0000
  type u32 = x: nat | x < 0x1_0000_0000

  // ---------- The sum ----------

  function Word(h: u8, l: u8): u16 {
    h * 0x100 + l
  }

  /** The sum of the first n big-endian 16-bit words. */
  function Words(s: seq<u8>, n: nat): nat
    requires 2 * n <= |s|
  {
    if n == 0 then 0 else Words(s, n - 1) + Word(s[2 * n - 2], s[2 * n - 1])
  }

  /** All of `s`; an odd last byte is the high byte of a word. */
  function Total(s: seq<u8>): nat {
    Words(s, |s| / 2) + if |s| % 2 == 1 then Word(s[|s| - 1], 0) else 0
  }

  /** Carries out of the low 16 bits are added back in until there are none. */
  function Fold(x: nat): (r: u16)
  {
    if x < 0x1_0000 then x else Fold(x % 0x1_0000 + x / 0x1_0000)
  }

  /** The checksum of a message; that of the empty one is 0. */
  function Cksum(s: seq<u8>): u16 {
    if s == [] then 0 else 0xFFFF - Fold(Total(s))
  }

  /** The same continued from an earlier sum, which is a 32-bit word. */
  function CksumFrom(init: u32, s: seq<u8>): u16 {
    if s == [] then init % 0x1_0000 else 0xFFFF - Fold((init + Total(s)) % 0x1_0000_0000)
  }

  /** 16-bit lengths keep a sum that starts at 0 within 32 bits. */
  lemma StartsAtZero(s: seq<u8>)
    requires |s| < 0x1_0000
    ensures CksumFrom(0, s) == Cksum(s)
  {
    WordsBound(s, |s| / 2);
  }

  lemma {:induction false} WordsBound(s: seq<u8>, n: nat)
    requires 2 * n <= |s|
    ensures Words(s, n) <= 0xFFFF * n
  {
    if n > 0 { WordsBound(s, n - 1); }
  }

  /** Folding is the remainder by 65535, but for the two forms of zero. */
  lemma {:induction false} FoldValue(x: nat)
    ensures Fold(x) == if x == 0 then 0 else (x - 1) % 0xFFFF + 1
  {
    if x >= 0x1_0000 {
      var y, q := x % 0x1_0000 + x / 0x1_0000, x / 0x1_0000;
      FoldValue(y);
      assert x - 1 == (y - 1) + 0xFFFF * q;
      AddMultiple(y - 1, q);
    }
  }

  lemma AddMultiple(a: nat, q: nat)
    ensures (a + 0xFFFF * q) % 0xFFFF == a % 0xFFFF
  {
  }

  /** A message verifies when its sum is zero modulo 65535 without being zero. */
  lemma VerifiesIff(s: seq<u8>)
    requires s != []
    ensures Cksum(s) == 0 <==> Total(s) > 0 && Total(s) % 0xFFFF == 0
  {
    FoldValue(Total(s));
    if Total(s) > 0 { LastOfCycle(Total(s)); }
  }

  lemma LastOfCycle(x: nat)
    requires x > 0
    ensures (x - 1) % 0xFFFF == 0xFFFE <==> x % 0xFFFF == 0
  {
    var q, r := (x - 1) / 0xFFFF, (x - 1) % 0xFFFF;
    assert x == (r + 1) + 0xFFFF * q;
    AddMultiple(r + 1, q);
  }

  // ---------- What it means ----------

  /** The first n bytes as one big-endian number. */
  function Number(s: seq<u8>, n: nat): nat
    requires n <= |s|
  {
    if n == 0 then 0 else Number(s, n - 1) * 0x100 + s[n - 1]
  }

  function Padded(s: seq<u8>): seq<u8> {
    if |s| % 2 == 1 then s + [0] else s
  }

  lemma {:induction false} WordsExtend(s: seq<u8>, t: seq<u8>, n: nat)
    requires 2 * n <= |s| && s <= t
    ensures Words(t, n) == Words(s, n)
  {
    if n > 0 { WordsExtend(s, t, n - 1); }
  }

  lemma {:induction false} NumberIsWords(s: seq<u8>, n: nat) returns (q: nat)
    requires 2 * n <= |s|
    ensures Number(s, 2 * n) == Words(s, n) + 0xFFFF * q
    ensures Words(s, n) == 0 ==> q == 0
  {
    q := 0;
    if n > 0 {
      var q' := NumberIsWords(s, n - 1);
      assert Number(s, 2 * n) == (Number(s, 2 * n - 2) * 0x100 + s[2 * n - 2]) * 0x100 + s[2 * n - 1];
      q := Words(s, n - 1) + 0x1_0000 * q';
    }
  }

  /**
   * A message verifies exactly when, padded to whole words and read as one
   * number, it is a multiple of 65535 other than zero.
   */
  lemma VerifiesIffMultiple(s: seq<u8>)
    requires s != []
    ensures Cksum(s) == 0 <==> Number(Padded(s), |Padded(s)|) > 0 && Number(Padded(s), |Padded(s)|) % 0xFFFF == 0
  {
    var t := Padded(s);
    WordsExtend(s, t, |s| / 2);
    assert Total(s) == Words(t, |t| / 2);
    var q := NumberIsWords(t, |t| / 2);
    VerifiesIff(s);
    AddMultiple(Total(s), q);
  }

  // ---------- Changing a word, storing the checksum ----------

  function SetWord(s: seq<u8>, k: nat, h: u8, l: u8): (t: seq<u8>)
    requires 2 * k + 1 < |s|
    ensures |t| == |s|
  {
    s[2 * k := h][2 * k + 1 := l]
  }

  function WordAt(s: seq<u8>, k: nat): u16
    requires 2 * k + 1 < |s|
  {
    Word(s[2 * k], s[2 * k + 1])
  }

  lemma {:induction false} SetWordWords(s: seq<u8>, k: nat, h: u8, l: u8, n: nat)
    requires 2 * k + 1 < |s| && 2 * n <= |s|
    ensures Words(SetWord(s, k, h, l), n) == Words(s, n) + if k < n then Word(h, l) - WordAt(s, k) else 0
  {
    if n > 0 { SetWordWords(s, k, h, l, n - 1); }
  }

  lemma SetWordTotal(s: seq<u8>, k: nat, h: u8, l: u8)
    requires 2 * k + 1 < |s|
    ensures Total(SetWord(s, k, h, l)) == Total(s) + Word(h, l) - WordAt(s, k)
  {
    SetWordWords(s, k, h, l, |s| / 2);
  }

  /** Zero the k-th word, compute the checksum, store it there. */
  function Sealed(s: seq<u8>, k: nat): (t: seq<u8>)
    requires 2 * k + 1 < |s|
    ensures |t| == |s|
  {
    var z := SetWord(s, k, 0, 0);
    SetWord(z, k, Cksum(z) / 0x100, Cksum(z) % 0x100)
  }

  /** Adding the complement of the folded sum makes a multiple of 65535, and never zero. */
  lemma ComplementFolds(x: nat)
    ensures Fold(x + 0xFFFF - Fold(x)) == 0xFFFF
  {
    FoldValue(x);
    FoldValue(x + 0xFFFF - Fold(x));
    if x > 0 {
      var q := (x - 1) / 0xFFFF;
      assert x + 0xFFFF - Fold(x) - 1 == 0xFFFE + 0xFFFF * q;
      AddMultiple(0xFFFE, q);
    }
  }

  lemma SealVerifies(s: seq<u8>, k: nat)
    requires 2 * k + 1 < |s|
    ensures Cksum(Sealed(s, k)) == 0
  {
    var z := SetWord(s, k, 0, 0);
    var c := Cksum(z);
    SetWordTotal(z, k, c / 0x100, c % 0x100);
    ComplementFolds(Total(z));
  }

  /**
   * Damage to one word of a message that verifies goes unnoticed exactly
   * when it turns one form of zero into the other.
   */
  lemma OneWordDamage(s: seq<u8>, k: nat, h: u8, l: u8)
    requires 2 * k + 1 < |s| && Cksum(s) == 0
    ensures var w, w' := WordAt(s, k), Word(h, l);
      Cksum(SetWord(s, k, h, l)) == 0 <==>
      w' == w || (w == 0 && w' == 0xFFFF) || (w == 0xFFFF && w' == 0 && Total(s) != 0xFFFF)
  {
    SetWordTotal(s, k, h, l);
    SetWordTotal(s, k, 0, 0);
    VerifiesIff(s);
    VerifiesIff(SetWord(s, k, h, l));
    SameRemainder(Total(s), WordAt(s, k), Word(h, l));
  }

  lemma SameRemainder(x: nat, w: u16, w': u16)
    requires x % 0xFFFF == 0 && x > 0 && x >= w
    ensures (x + w' - w) % 0xFFFF == 0 <==> w' == w || (w == 0 && w' == 0xFFFF) || (w == 0xFFFF && w' == 0)
  {
    var q := x / 0xFFFF;
    assert x == 0xFFFF * q;
    if w' >= w {
      AddMultiple(w' - w, q);
    } else {
      assert q >= 1;
      AddMultiple(0xFFFF + w' - w, q - 1);
    }
  }

  // ---------- checksum_calc ----------

  /** The bytes that the loop reads: its index is one byte wide. */
  function Covered(p: seq<u8>, at: nat, len: nat): (s: seq<u8>)
    requires at + (if len < 0x100 then len else 0x100) <= |p|
    ensures |s| == len
  {
    seq(len, k requires 0 <= k < len => p[at + k % 0x100])
  }

  lemma CoveredIsWhole(p: seq<u8>, at: nat, len: nat)
    requires len <= 0x100 && at + len <= |p|
    ensures Covered(p, at, len) == p[at..at + len]
  {
  }

  /** The two bytes of the n-th word. */
  lemma CoveredWord(p: seq<u8>, at: nat, len: nat, n: nat, num: nat)
    requires at + (if len < 0x100 then len else 0x100) <= |p| && num == 2 * n % 0x100 && 2 * n < len
    ensures at + num < |p| && Covered(p, at, len)[2 * n] == p[at + num]
    ensures 2 * n + 1 < len ==> at + num + 1 < |p| && Covered(p, at, len)[2 * n + 1] == p[at + num + 1]
    ensures (num + 2) % 0x100 == 2 * (n + 1) % 0x100
  {
    var q := 2 * n / 0x100;
    assert 2 * n == 0x100 * q + num && num % 2 == 0;
    assert (2 * n + 1) % 0x100 == num + 1;
  }

  lemma CoveredSlice(p: seq<u8>, at: nat, len: nat)
    requires at + len <= |p|
    ensures Covered(p[at..at + len], 0, len) == Covered(p, at, len)
  {
  }

  function PutWord(s: seq<u8>, at: nat, w: u16): (t: seq<u8>)
    requires at + 1 < |s|
    ensures |t| == |s|
  {
    s[at := w / 0x100][at + 1 := w % 0x100]
  }

  /** What the senders store in word k: the checksum of the bytes that checksum_calc reads. */
  function Stored(s: seq<u8>, k: nat): (t: seq<u8>)
    requires 2 * k + 1 < |s|
    ensures |t| == |s|
  {
    var z := SetWord(s, k, 0, 0);
    var c := Cksum(Covered(z, 0, |z|));
    SetWord(z, k, c / 0x100, c % 0x100)
  }

  /** The bytes read sum to what all bytes sum to, modulo 65535. */
  predicate ReadsEnough(s: seq<u8>) {
    Total(s) % 0xFFFF == Total(Covered(s, 0, |s|)) % 0xFFFF
  }

  lemma StoredShort(s: seq<u8>, k: nat)
    requires 2 * k + 1 < |s| <= 0x100
    ensures Stored(s, k) == Sealed(s, k) && ReadsEnough(SetWord(s, k, 0, 0))
  {
    ReadWhole(SetWord(s, k, 0, 0));
  }

  lemma ReadWhole(s: seq<u8>)
    requires |s| <= 0x100
    ensures Covered(s, 0, |s|) == s
  {
    CoveredIsWhole(s, 0, |s|);
    assert s[0..0 + |s|] == s;
  }

  /** A message with what the senders store in it verifies exactly when the bytes read sum to the whole. */
  lemma StoredVerifiesIff(s: seq<u8>, k: nat)
    requires 2 * k + 1 < |s|
    ensures Cksum(Stored(s, k)) == 0 <==> ReadsEnough(SetWord(s, k, 0, 0))
  {
    var z := SetWord(s, k, 0, 0);
    var x, y := Total(z), Total(Covered(z, 0, |z|));
    StoredTotal(s, k);
    VerifiesIff(Stored(s, k));
    FoldKeepsRemainder(y);
    ComplementCongruent(x, Fold(y));
    if x == 0 { NothingToRead(z); }
  }

  lemma NothingToRead(s: seq<u8>)
    requires Total(s) == 0
    ensures Total(Covered(s, 0, |s|)) == 0
  {
    TotalZero(s, |s| / 2);
    WordsZero(Covered(s, 0, |s|), |s| / 2);
  }

  lemma StoredTotal(s: seq<u8>, k: nat)
    requires 2 * k + 1 < |s|
    ensures var z := SetWord(s, k, 0, 0);
      Total(Stored(s, k)) == Total(z) + 0xFFFF - Fold(Total(Covered(z, 0, |z|)))
  {
    var z := SetWord(s, k, 0, 0);
    var c := Cksum(Covered(z, 0, |z|));
    SetWordTotal(z, k, c / 0x100, c % 0x100);
  }

  lemma FoldKeepsRemainder(y: nat)
    ensures Fold(y) % 0xFFFF == y % 0xFFFF && (Fold(y) == 0 <==> y == 0)
  {
    FoldValue(y);
    if y > 0 {
      var q := (y - 1) / 0xFFFF;
      assert y == Fold(y) + 0xFFFF * q;
      AddMultiple(Fold(y), q);
    }
  }

  lemma ComplementCongruent(x: nat, f: u16)
    ensures (x + 0xFFFF - f) % 0xFFFF == 0 <==> x % 0xFFFF == f % 0xFFFF
  {
    var q, r := x / 0xFFFF, x % 0xFFFF;
    assert x == r + 0xFFFF * q;
    AddMultiple(r + 0xFFFF - f, q);
  }

  /** Only zeros sum to zero. */
  lemma {:induction false} TotalZero(s: seq<u8>, n: nat)
    requires 2 * n <= |s| && Words(s, n) == 0
    ensures forall k :: 0 <= k < 2 * n ==> s[k] == 0
  {
    if n > 0 { TotalZero(s, n - 1); }
  }

  /** What checksum_calc returns for a message is the checksum of that message. */
  ghost predicate SumsWhole(s: seq<u8>) {
    Cksum(Covered(s, 0, |s|)) == Cksum(s)
  }

  /** It is so for every message of a length exactly up to 256 bytes. */
  lemma WholeUpTo256(len: nat)
    ensures (forall s: seq<u8> :: |s| == len ==> SumsWhole(s)) <==> len <= 0x100
  {
    if len <= 0x100 {
      forall s: seq<u8> | |s| == len ensures SumsWhole(s) {
        ReadWhole(s);
      }
    } else {
      var s := LongMessage(len);
      assert !SumsWhole(s);
    }
  }

  /** A longer message whose only non-zero byte is never read. */
  lemma LongMessage(len: nat) returns (s: seq<u8>)
    requires len > 0x100
    ensures |s| == len && !SumsWhole(s)
  {
    var z: seq<u8> := seq(len, _ => 0);
    s := z[0x100 := 1];
    assert Covered(s, 0, len) == z;
    WordsZero(z, len / 2);
    WordsOne(s, len / 2);
    FoldValue(Total(s));
  }

  lemma {:induction false} WordsZero(s: seq<u8>, n: nat)
    requires 2 * n <= |s| && forall k :: 0 <= k < |s| ==> s[k] == 0
    ensures Words(s, n) == 0
  {
    if n > 0 { WordsZero(s, n - 1); }
  }

  lemma {:induction false} WordsOne(s: seq<u8>, n: nat)
    requires 2 * n <= |s| && |s| > 0x100 && forall k :: 0 <= k < |s| ==> s[k] == if k == 0x100 then 1 else 0
    ensures Words(s, n) == if n > 0x80 then 0x100 else 0
  {
    if n > 0 { WordsOne(s, n - 1); }
  }

  /** checksum_calc on the bytes from offset `at` of `p`. */
  method ChecksumCalc(init: u32, p: array<u8>, at: nat, len0: u16) returns (r: u16)
    requires at + (if len0 < 0x100 then len0 else 0x100) <= p.Length
    ensures r == CksumFrom(init, Covered(p[..], at, len0))
    ensures len0 <= 0x100 ==> r == CksumFrom(init, p[at..at + len0])
    ensures init == 0 ==> r == Cksum(Covered(p[..], at, len0))
  {
    ghost var s := Covered(p[..], at, len0);
    StartsAtZero(s);
    if len0 <= 0x100 {
      CoveredIsWhole(p[..], at, len0);
      assert p[..][at..at + len0] == p[at..at + len0];
    }
    if len0 == 0 {
      return init % 0x1_0000;
    }
    var cksum := SumWords(init, p, at, len0);
    r := FoldCarries(cksum);
    r := 0xFFFF - r;
  }

  /**
   * What every sender does: with the field of word k already zero, compute
   * the checksum of the `len` bytes at `at` and store it there.
   */
  method StoreChecksum(p: array<u8>, at: nat, len: u16, k: nat)
    requires at + len <= p.Length && at + 2 * k + 1 < p.Length && p[at + 2 * k] == p[at + 2 * k + 1] == 0
    modifies p
    ensures p[..] == PutWord(old(p[..]), at + 2 * k, Cksum(Covered(old(p[..]), at, len)))
    ensures 2 * k + 1 < len ==> p[at..at + len] == Stored(old(p[at..at + len]), k)
    ensures forall x :: 0 <= x < p.Length && x != at + 2 * k && x != at + 2 * k + 1 ==> p[x] == old(p[x])
  {
    ghost var z, s := p[..], p[at..at + len];
    var cksum := ChecksumCalc(0, p, at, len);
    p[at + 2 * k] := cksum / 0x100;
    p[at + 2 * k + 1] := cksum % 0x100;
    if 2 * k + 1 < len {
      CoveredSlice(z, at, len);
      assert z[at..at + len] == s && SetWord(s, k, 0, 0) == s;
      assert p[at..at + len] == SetWord(s, k, cksum / 0x100, cksum % 0x100);
    }
  }

  /** The two summing statements: a word a round, and an odd last byte. */
  method SumWords(init: u32, p: array<u8>, at: nat, len0: u16) returns (cksum: u32)
    requires at + (if len0 < 0x100 then len0 else 0x100) <= p.Length
    ensures cksum == (init + Total(Covered(p[..], at, len0))) % 0x1_0000_0000
  {
    ghost var s := Covered(p[..], at, len0);
    cksum := init;
    var num: u8, len: u16 := 0, len0;
    ghost var n: nat := 0;
    while len > 1
      invariant 2 * n + len == len0 && num == 2 * n % 0x100
      invariant cksum == (init + Words(s, n)) % 0x1_0000_0000
    {
      CoveredWord(p[..], at, len0, n, num);
      WrapAdd(init + Words(s, n), Word(s[2 * n], s[2 * n + 1]));
      cksum := (cksum + Word(p[at + num], p[at + num + 1])) % 0x1_0000_0000;
      len := len - 2;
      num := (num + 2) % 0x100;
      n := n + 1;
    }
    if len > 0 {
      CoveredWord(p[..], at, len0, n, num);
      WrapAdd(init + Words(s, n), Word(s[2 * n], 0));
      cksum := (cksum + Word(p[at + num], 0)) % 0x1_0000_0000;
    }
  }

  lemma WrapAdd(x: nat, w: nat)
    ensures (x % 0x1_0000_0000 + w) % 0x1_0000_0000 == (x + w) % 0x1_0000_0000
  {
  }

  /** The folding loop. */
  method FoldCarries(cksum0: u32) returns (cksum: u32)
    ensures cksum == Fold(cksum0)
  {
    cksum := cksum0;
    while cksum / 0x1_0000 != 0
      invariant Fold(cksum) == Fold(cksum0)
      decreases cksum
    {
      cksum := cksum % 0x1_0000 + cksum / 0x1_0000;
    }
  }
}
