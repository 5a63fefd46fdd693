/** sort and bsearch over elements of `size` bytes, addressed by byte offsets. */
module Sort {
  import opened Bits
  import opened Memory
  import opened Options

  type Elt = seq<u8>

  /** A comparison function: negative, zero or positive. */
  type Cmp = (Elt, Elt) -> int

  ghost predicate Preorder(cmp: Cmp) {
    && (forall a, b :: cmp(a, b) < 0 <==> cmp(b, a) > 0)
    && (forall a, b, c :: cmp(a, b) <= 0 && cmp(b, c) <= 0 ==> cmp(a, c) <= 0)
  }

  ghost predicate Sorted(cmp: Cmp, s: seq<Elt>) {
    forall i, j :: 0 <= i < j < |s| ==> cmp(s[i], s[j]) <= 0
  }

  // ---------- Elements in memory ----------

  /** `k * size`: where element k begins. */
  function Offset(k: nat, size: nat): nat {
    if k == 0 then 0 else Offset(k - 1, size) + size
  }

  /** Element k of an array of `size`-byte elements. */
  function Element(bytes: seq<u8>, size: nat, k: nat): Elt
    requires Offset(k, size) + size <= |bytes|
  {
    bytes[Offset(k, size)..Offset(k, size) + size]
  }

  ghost function Elements(bytes: seq<u8>, size: nat, num: nat): (s: seq<Elt>)
    requires Offset(num, size) <= |bytes|
    ensures |s| == num
  {
    Offsets(num, size);
    seq(num, k requires 0 <= k < num => Element(bytes, size, k))
  }

  /** What lies behind the array. */
  ghost function Beyond(bytes: seq<u8>, size: nat, num: nat): seq<u8>
    requires Offset(num, size) <= |bytes|
  {
    bytes[Offset(num, size)..]
  }

  lemma Offsets(num: nat, size: nat)
    ensures forall k: nat :: k < num ==> Offset(k, size) + size <= Offset(num, size)
  {
    forall k: nat | k < num ensures Offset(k, size) + size <= Offset(num, size) { OffsetLess(k, num, size); }
  }

  lemma {:induction false} OffsetLess(a: nat, b: nat, size: nat)
    requires a < b
    ensures Offset(a, size) + size <= Offset(b, size)
    decreases b
  {
    if a < b - 1 { OffsetLess(a, b - 1, size); }
  }

  lemma {:induction false} OffsetProduct(k: nat, size: nat)
    ensures Offset(k, size) == k * size
  {
    if k > 0 {
      OffsetProduct(k - 1, size);
      assert k * size == (k - 1) * size + size;
    }
  }

  lemma OffsetOrder(a: nat, b: nat, size: nat)
    requires size > 0
    ensures Offset(a, size) < Offset(b, size) <==> a < b
  {
    if a < b { OffsetLess(a, b, size); } else if b < a { OffsetLess(b, a, size); }
  }

  lemma {:induction false} OffsetDouble(a: nat, size: nat)
    ensures Offset(2 * a + 1, size) == Offset(a, size) * 2 + size
  {
    if a > 0 {
      OffsetDouble(a - 1, size);
      assert 2 * a + 1 == 2 * (a - 1) + 1 + 2;
    }
  }

  function Exchange(s: seq<Elt>, i: nat, j: nat): seq<Elt>
    requires i < |s| && j < |s|
  {
    s[i := s[j]][j := s[i]]
  }

  /** Only the first m elements were rearranged. */
  ghost predicate Permuted(s: seq<Elt>, t: seq<Elt>, m: nat)
    requires m <= |s|
  {
    |s| == |t| && multiset(s[..m]) == multiset(t[..m]) && s[m..] == t[m..]
  }

  lemma ExchangePermuted(s: seq<Elt>, i: nat, j: nat, m: nat)
    requires i < m && j < m && m <= |s|
    ensures Permuted(s, Exchange(s, i, j), m)
  {
    assert Exchange(s, i, j)[..m] == s[..m][i := s[j]][j := s[i]];
  }

  lemma PermutedFurther(s: seq<Elt>, t: seq<Elt>, i: nat, j: nat, m: nat)
    requires i < m && j < m && m <= |s| && Permuted(s, t, m)
    ensures Permuted(s, Exchange(t, i, j), m)
  {
    ExchangePermuted(t, i, j, m);
  }

  /** What swapping two byte ranges does. */
  ghost predicate RangesSwapped(before: seq<u8>, after: seq<u8>, a: nat, b: nat, n: nat)
    requires a + n <= b && b + n <= |before| && |after| == |before|
  {
    && (forall x :: a <= x < a + n ==> after[x] == before[x + (b - a)])
    && (forall x :: b <= x < b + n ==> after[x] == before[x - (b - a)])
    && (forall x :: 0 <= x < |before| && !(a <= x < a + n) && !(b <= x < b + n) ==> after[x] == before[x])
  }

  /** generic_swap: byte by byte. */
  method GenericSwap(base: array<u8>, a0: nat, b0: nat, size0: nat)
    requires 0 < size0 && a0 + size0 <= b0 && b0 + size0 <= base.Length
    modifies base
    ensures RangesSwapped(old(base[..]), base[..], a0, b0, size0)
  {
    var a, b, size := a0, b0, size0;
    ghost var before, gap := base[..], b0 - a0;
    while size > 0
      invariant 0 <= size <= size0 && a == a0 + size0 - size && b == a + gap
      invariant forall x :: a0 <= x < a ==> base[x] == before[x + gap]
      invariant forall x :: b0 <= x < b ==> base[x] == before[x - gap]
      invariant forall x :: 0 <= x < base.Length && !(a0 <= x < a) && !(b0 <= x < b) ==> base[x] == before[x]
    {
      var t := base[a];
      base[a] := base[b];
      a := a + 1;
      base[b] := t;
      b := b + 1;
      size := size - 1;
    }
  }

  /** u32_swap: four bytes at once. */
  method U32Swap(base: array<u8>, a: nat, b: nat)
    requires a + 4 <= b && b + 4 <= base.Length
    modifies base
    ensures RangesSwapped(old(base[..]), base[..], a, b, 4)
  {
    var t := base[a..a + 4];
    forall x | a <= x < a + 4 {
      base[x] := base[x + (b - a)];
    }
    forall x | b <= x < b + 4 {
      base[x] := t[x - b];
    }
  }

  /** In terms of elements, swapping their bytes exchanges them. */
  lemma SwapExchanges(before: seq<u8>, after: seq<u8>, size: nat, num: nat, i: nat, j: nat)
    requires 0 < size && i < j < num && Offset(num, size) <= |before| == |after|
    requires Offset(i, size) + size <= Offset(j, size) && Offset(j, size) + size <= |before|
    requires RangesSwapped(before, after, Offset(i, size), Offset(j, size), size)
    ensures Elements(after, size, num) == Exchange(Elements(before, size, num), i, j)
    ensures Beyond(after, size, num) == Beyond(before, size, num)
  {
    var s, s' := Elements(before, size, num), Elements(after, size, num);
    Offsets(num, size);
    forall k: nat | k < num ensures s'[k] == Exchange(s, i, j)[k] {
      ElementMoved(before, after, size, i, j, k);
    }
  }

  /** A range that is one of the two, or apart from both. */
  lemma RangeMoved(before: seq<u8>, after: seq<u8>, a: nat, b: nat, n: nat, x: nat)
    requires a + n <= b && b + n <= |before| == |after| && RangesSwapped(before, after, a, b, n) && x + n <= |before|
    requires x == a || x == b || ((x + n <= a || a + n <= x) && (x + n <= b || b + n <= x))
    ensures var y := if x == a then b else if x == b then a else x;
      after[x..x + n] == before[y..y + n]
  {
    var y := if x == a then b else if x == b then a else x;
    var e, f := after[x..x + n], before[y..y + n];
    forall p | 0 <= p < n ensures e[p] == f[p] {
      var k := x + p;
      assert after[k] == before[k + (y - x)];
      assert e[p] == after[k];
      assert f[p] == before[y + p];
    }
  }

  lemma ElementMoved(before: seq<u8>, after: seq<u8>, size: nat, i: nat, j: nat, k: nat)
    requires 0 < size && i < j && Offset(i, size) + size <= Offset(j, size)
    requires Offset(j, size) + size <= |before| == |after|
    requires Offset(k, size) + size <= |before| && RangesSwapped(before, after, Offset(i, size), Offset(j, size), size)
    ensures Element(after, size, k) == Element(before, size, if k == i then j else if k == j then i else k)
  {
    OffsetsApart(k, i, size);
    OffsetsApart(k, j, size);
    RangeMoved(before, after, Offset(i, size), Offset(j, size), size, Offset(k, size));
  }

  lemma OffsetsApart(a: nat, b: nat, size: nat)
    ensures a == b || Offset(a, size) + size <= Offset(b, size) || Offset(b, size) + size <= Offset(a, size)
    ensures size > 0 && Offset(a, size) == Offset(b, size) ==> a == b
  {
    if a < b { OffsetLess(a, b, size); } else if b < a { OffsetLess(b, a, size); }
  }

  // ---------- Heaps ----------

  function Parent(c: nat): nat
    requires c > 0
  {
    (c - 1) / 2
  }

  predicate NotAbove(cmp: Cmp, s: seq<Elt>, c: nat, p: nat)
    requires c < |s| && p < |s|
  {
    cmp(s[c], s[p]) <= 0
  }

  /** Every element of the prefix whose parent is at or after `lo` is not above its parent. */
  ghost predicate Heap(cmp: Cmp, s: seq<Elt>, lo: nat, n: nat)
    requires n <= |s|
  {
    forall c: nat :: 0 < c < n && lo <= Parent(c) ==> NotAbove(cmp, s, c, Parent(c))
  }

  /** The same while `r` is being sifted: `r` may be below its children, which are not above its parent. */
  ghost predicate Sifting(cmp: Cmp, s: seq<Elt>, lo: nat, n: nat, r: nat)
    requires n <= |s| && r < n
  {
    && (forall c: nat :: 0 < c < n && lo <= Parent(c) && Parent(c) != r ==> NotAbove(cmp, s, c, Parent(c)))
    && (forall c: nat :: 0 < c < n && Parent(c) == r && r > 0 && lo <= Parent(r) ==> NotAbove(cmp, s, c, Parent(r)))
  }

  /** No child of element `p` within the prefix is above element `top`. */
  ghost predicate ChildrenBelow(cmp: Cmp, s: seq<Elt>, n: nat, p: nat, top: nat)
    requires n <= |s| && top < |s|
  {
    forall c: nat :: 0 < c < n && Parent(c) == p ==> NotAbove(cmp, s, c, top)
  }

  lemma {:induction false} HeapMax(cmp: Cmp, s: seq<Elt>, n: nat, k: nat)
    requires Preorder(cmp) && k < n <= |s| && Heap(cmp, s, 0, n)
    ensures NotAbove(cmp, s, k, 0)
  {
    if k > 0 {
      HeapMax(cmp, s, n, Parent(k));
      assert NotAbove(cmp, s, k, Parent(k));
    } else {
      assert cmp(s[0], s[0]) < 0 <==> cmp(s[0], s[0]) > 0;
    }
  }

  /** One level of sifting: the larger child `c` comes up. */
  lemma SiftLevel(cmp: Cmp, s: seq<Elt>, lo: nat, n: nat, r: nat, c: nat)
    requires Preorder(cmp) && lo <= r < c < n <= |s| && Parent(c) == r && Sifting(cmp, s, lo, n, r)
    requires ChildrenBelow(cmp, s, n, r, c)
    requires cmp(s[r], s[c]) < 0
    ensures Sifting(cmp, Exchange(s, r, c), lo, n, c)
  {
    var t := Exchange(s, r, c);
    forall d: nat | 0 < d < n && lo <= Parent(d) && Parent(d) != c ensures NotAbove(cmp, t, d, Parent(d)) {
      if d == c {
      } else if d == r {
        assert NotAbove(cmp, s, c, Parent(r));
      } else if Parent(d) == r {
        assert NotAbove(cmp, s, d, c);
      } else {
        assert NotAbove(cmp, s, d, Parent(d));
      }
    }
    forall d: nat | 0 < d < n && Parent(d) == c ensures NotAbove(cmp, t, d, r) {
      assert NotAbove(cmp, s, d, Parent(d));
    }
  }

  /** Sifting begins at the element before a heap. */
  lemma SiftBegins(cmp: Cmp, s: seq<Elt>, lo: nat, n: nat)
    requires lo < n <= |s| && Heap(cmp, s, lo + 1, n)
    ensures Sifting(cmp, s, lo, n, lo)
  {
  }

  /** An element without children is not below any. */
  lemma SiftLeaf(cmp: Cmp, s: seq<Elt>, lo: nat, n: nat, r: nat)
    requires r < n <= |s| && n <= 2 * r + 1 && Sifting(cmp, s, lo, n, r)
    ensures Heap(cmp, s, lo, n)
  {
    SiftDone(cmp, s, lo, n, r);
  }

  /** Sifting ends when `r` has no child above it. */
  lemma SiftDone(cmp: Cmp, s: seq<Elt>, lo: nat, n: nat, r: nat)
    requires r < n <= |s| && Sifting(cmp, s, lo, n, r)
    requires ChildrenBelow(cmp, s, n, r, r)
    ensures Heap(cmp, s, lo, n)
  {
  }

  // ---------- sort ----------

  /** The call of swap_func: u32_swap for four-byte elements, generic_swap otherwise. */
  method Swap(base: array<u8>, size: nat, a: nat, b: nat, ghost num: nat, ghost i: nat, ghost j: nat)
    requires 0 < size && i < j < num && Offset(num, size) <= base.Length && a == Offset(i, size) && b == Offset(j, size)
    modifies base
    ensures Elements(base[..], size, num) == Exchange(old(Elements(base[..], size, num)), i, j)
    ensures Beyond(base[..], size, num) == old(Beyond(base[..], size, num))
  {
    OffsetLess(i, j, size);
    OffsetLess(j, num, size);
    ghost var before := base[..];
    if size == 4 {
      U32Swap(base, a, b);
    } else {
      GenericSwap(base, a, b, size);
    }
    SwapExchanges(before, base[..], size, num, i, j);
  }

  /** Offsets of children, and the tests on them. */
  lemma ChildOffsets(kr: nat, m: nat, size: nat, c: nat)
    requires 0 < size && c == Offset(kr, size) * 2 + size
    ensures c == Offset(2 * kr + 1, size) && c + size == Offset(2 * kr + 2, size)
    ensures c < Offset(m, size) <==> 2 * kr + 1 < m
    ensures c < Offset(m, size) - size <==> 2 * kr + 2 < m
  {
    OffsetDouble(kr, size);
    OffsetOrder(2 * kr + 1, m, size);
    OffsetOrder(2 * kr + 2, m, size);
    assert Offset(2 * kr + 2, size) == Offset(2 * kr + 1, size) + size;
  }

  lemma SelfEqual(cmp: Cmp, a: Elt)
    requires Preorder(cmp)
    ensures cmp(a, a) == 0
  {
    assert cmp(a, a) < 0 <==> cmp(a, a) > 0;
  }

  /** What cmp_func reads at byte offset `at`: element k. */
  function Read(base: array<u8>, size: nat, at: nat, ghost num: nat, ghost k: nat): (e: Elt)
    requires Offset(num, size) <= base.Length && k < num && at == Offset(k, size)
    reads base
    ensures e == Elements(base[..], size, num)[k]
  {
    OffsetLess(k, num, size);
    assert base[at..at + size] == base[..][at..at + size];
    base[at..at + size]
  }

  /** The larger of the children of element kr, and its byte offset. */
  method LargerChild(base: array<u8>, size: nat, cmp: Cmp, r: nat, n: nat, ghost num: nat, ghost kr: nat, ghost m: nat)
    returns (c: nat, ghost kc: nat)
    requires 0 < size && Preorder(cmp) && m <= num && Offset(num, size) <= base.Length
    requires r == Offset(kr, size) && n == Offset(m, size) && r * 2 + size < n
    ensures kr < kc < m && c == Offset(kc, size) && Parent(kc) == kr
    ensures ChildrenBelow(cmp, Elements(base[..], size, num), m, kr, kc)
  {
    c, kc := ChooseChild(base, size, cmp, r, n, num, kr, m);
    TwoChildren(cmp, Elements(base[..], size, num), m, kr, kc);
  }

  /** The first child, or the second if there is one and it is larger. */
  method ChooseChild(base: array<u8>, size: nat, cmp: Cmp, r: nat, n: nat, ghost num: nat, ghost kr: nat, ghost m: nat)
    returns (c: nat, ghost kc: nat)
    requires 0 < size && m <= num && Offset(num, size) <= base.Length
    requires r == Offset(kr, size) && n == Offset(m, size) && r * 2 + size < n
    ensures kc < m && c == Offset(kc, size) && (kc == 2 * kr + 1 || kc == 2 * kr + 2)
    ensures kc == 2 * kr + 1 && kc + 1 < m ==>
      cmp(Elements(base[..], size, num)[kc], Elements(base[..], size, num)[kc + 1]) >= 0
    ensures kc == 2 * kr + 2 ==> cmp(Elements(base[..], size, num)[kc - 1], Elements(base[..], size, num)[kc]) < 0
  {
    c, kc := r * 2 + size, 2 * kr + 1;
    ChildOffsets(kr, m, size, c);
    if c < n - size && RightLarger(base, size, cmp, c, num, kc) {
      c, kc := c + size, kc + 1;
    }
  }

  /** The comparison of the two children. */
  predicate RightLarger(base: array<u8>, size: nat, cmp: Cmp, c: nat, ghost num: nat, ghost kc: nat)
    requires Offset(num, size) <= base.Length && kc + 1 < num && c == Offset(kc, size)
    reads base
    ensures RightLarger(base, size, cmp, c, num, kc) <==>
      cmp(Elements(base[..], size, num)[kc], Elements(base[..], size, num)[kc + 1]) < 0
  {
    cmp(Read(base, size, c, num, kc), Read(base, size, c + size, num, kc + 1)) < 0
  }

  /** The children are these two, so the one that is not below its sibling is the larger. */
  lemma TwoChildren(cmp: Cmp, s: seq<Elt>, m: nat, kr: nat, kc: nat)
    requires Preorder(cmp) && kc < m <= |s| && (kc == 2 * kr + 1 || kc == 2 * kr + 2)
    requires kc == 2 * kr + 1 && kc + 1 < m ==> cmp(s[kc], s[kc + 1]) >= 0
    requires kc == 2 * kr + 2 ==> cmp(s[kc - 1], s[kc]) < 0
    ensures kr < kc && Parent(kc) == kr
    ensures ChildrenBelow(cmp, s, m, kr, kc)
  {
    forall d: nat | 0 < d < m && Parent(d) == kr ensures NotAbove(cmp, s, d, kc) {
      if d == kc {
        SelfEqual(cmp, s[kc]);
      } else {
        assert cmp(s[kc], s[d]) < 0 <==> cmp(s[d], s[kc]) > 0;
      }
    }
  }

  /** One round of a sift-down loop: stop, or bring the larger child up. */
  method SiftRound(base: array<u8>, size: nat, cmp: Cmp, r: nat, n: nat,
                   ghost num: nat, ghost lo: nat, ghost kr: nat, ghost m: nat)
    returns (go: bool, c: nat, ghost kc: nat)
    requires 0 < size && Preorder(cmp) && m <= num && Offset(num, size) <= base.Length
    requires r == Offset(kr, size) && n == Offset(m, size) && r * 2 + size < n && lo <= kr < m
    requires Sifting(cmp, Elements(base[..], size, num), lo, m, kr)
    modifies base
    ensures kr < kc < m && c == Offset(kc, size)
    ensures var s, t := old(Elements(base[..], size, num)), Elements(base[..], size, num);
      if go then t == Exchange(s, kr, kc) && Sifting(cmp, t, lo, m, kc) else t == s && Heap(cmp, t, lo, m)
    ensures Beyond(base[..], size, num) == old(Beyond(base[..], size, num))
  {
    ghost var s := Elements(base[..], size, num);
    c, kc := LargerChild(base, size, cmp, r, n, num, kr, m);
    if cmp(Read(base, size, r, num, kr), Read(base, size, c, num, kc)) >= 0 {
      assert cmp(s[kr], s[kc]) < 0 <==> cmp(s[kc], s[kr]) > 0;
      SiftStops(cmp, s, lo, m, kr, kc);
      return false, c, kc;
    }
    SiftLevel(cmp, s, lo, m, kr, kc);
    Swap(base, size, r, c, num, kr, kc);
    go := true;
  }

  lemma SiftStops(cmp: Cmp, s: seq<Elt>, lo: nat, n: nat, r: nat, c: nat)
    requires Preorder(cmp) && r < n <= |s| && c < n && Sifting(cmp, s, lo, n, r) && cmp(s[r], s[c]) >= 0
    requires ChildrenBelow(cmp, s, n, r, c)
    ensures Heap(cmp, s, lo, n)
  {
    assert cmp(s[r], s[c]) < 0 <==> cmp(s[c], s[r]) > 0;
    assert cmp(s[c], s[r]) < 0 <==> cmp(s[r], s[c]) > 0;
    forall d: nat | 0 < d < n && Parent(d) == r ensures NotAbove(cmp, s, d, r) {
      assert NotAbove(cmp, s, d, c);
    }
    SiftDone(cmp, s, lo, n, r);
  }

  /** A sift-down loop of sort, from byte offset i within the first n bytes. */
  method SiftDown(base: array<u8>, size: nat, cmp: Cmp, i: nat, n: nat, ghost num: nat, ghost lo: nat, ghost m: nat)
    requires 0 < size && Preorder(cmp) && m <= num && Offset(num, size) <= base.Length
    requires i == Offset(lo, size) && n == Offset(m, size) && lo < m
    requires Heap(cmp, Elements(base[..], size, num), lo + 1, m)
    modifies base
    ensures Heap(cmp, Elements(base[..], size, num), lo, m)
    ensures Permuted(old(Elements(base[..], size, num)), Elements(base[..], size, num), m)
    ensures Beyond(base[..], size, num) == old(Beyond(base[..], size, num))
  {
    ghost var s0, kr := Elements(base[..], size, num), lo;
    ghost var s := s0;
    SiftBegins(cmp, s, lo, m);
    var r := i;
    while r * 2 + size < n
      invariant r == Offset(kr, size) && lo <= kr < m && s == Elements(base[..], size, num)
      invariant Sifting(cmp, s, lo, m, kr) && Permuted(s0, s, m)
      invariant Beyond(base[..], size, num) == old(Beyond(base[..], size, num))
      decreases m - kr
    {
      var go, c, kc := SiftRound(base, size, cmp, r, n, num, lo, kr, m);
      if !go { return; }
      PermutedFurther(s0, s, kr, kc, m);
      s := Exchange(s, kr, kc);
      r, kr := c, kc;
    }
    ChildOffsets(kr, m, size, r * 2 + size);
    SiftLeaf(cmp, s, lo, m, kr);
  }

  // ---------- Heap order to sorted order ----------

  /** Elements from k on are in place: nothing before them is above them. */
  ghost predicate Settled(cmp: Cmp, s: seq<Elt>, k: nat) {
    forall a: nat, b: nat :: a < b < |s| && k <= b ==> NotAbove(cmp, s, a, b)
  }

  lemma SettledPermuted(cmp: Cmp, s: seq<Elt>, t: seq<Elt>, k: nat)
    requires k <= |s| && Permuted(s, t, k) && Settled(cmp, s, k)
    ensures Settled(cmp, t, k)
  {
    forall a: nat, b: nat | a < b < |t| && k <= b ensures NotAbove(cmp, t, a, b) {
      assert t[b] == t[k..][b - k] == s[k..][b - k] == s[b];
      if a < k {
        assert t[a] == t[..k][a] && t[a] in multiset(t[..k]);
        var a' :| 0 <= a' < k && s[..k][a'] == t[a];
        assert NotAbove(cmp, s, a', b);
      } else {
        assert t[a] == t[k..][a - k] == s[k..][a - k] == s[a];
        assert NotAbove(cmp, s, a, b);
      }
    }
  }

  /** The top of a heap goes to its end, and settles there. */
  lemma TopSettles(cmp: Cmp, s: seq<Elt>, k: nat)
    requires Preorder(cmp) && 0 < k < |s| && Heap(cmp, s, 0, k + 1) && Settled(cmp, s, k + 1)
    ensures Settled(cmp, Exchange(s, 0, k), k) && Heap(cmp, Exchange(s, 0, k), 1, k)
  {
    var t := Exchange(s, 0, k);
    ExchangePermuted(s, 0, k, k + 1);
    SettledPermuted(cmp, s, t, k + 1);
    forall a: nat | a < k ensures NotAbove(cmp, t, a, k) {
      HeapMax(cmp, s, k + 1, if a == 0 then k else a);
    }
    forall c: nat | 0 < c < k && 1 <= Parent(c) ensures NotAbove(cmp, t, c, Parent(c)) {
      assert NotAbove(cmp, s, c, Parent(c));
    }
  }

  lemma SettledIsSorted(cmp: Cmp, s: seq<Elt>)
    requires Settled(cmp, s, 1)
    ensures Sorted(cmp, s)
  {
    forall i, j | 0 <= i < j < |s| ensures cmp(s[i], s[j]) <= 0 {
      assert NotAbove(cmp, s, i, j);
    }
  }

  /** Leaves alone are a heap. */
  lemma LeavesAreHeap(cmp: Cmp, s: seq<Elt>, lo: nat)
    requires |s| <= 2 * lo + 1
    ensures Heap(cmp, s, lo, |s|)
  {
  }

  lemma PermutedWhole(s: seq<Elt>, t: seq<Elt>, m: nat)
    requires m <= |s| && Permuted(s, t, m)
    ensures multiset(s) == multiset(t)
  {
    assert s == s[..m] + s[m..] && t == t[..m] + t[m..];
  }

  /** The heapify loop, from i = (num/2 - 1) * size, negative when there is nothing to do. */
  method Heapify(base: array<u8>, num: nat, size: nat, cmp: Cmp)
    requires Preorder(cmp) && 0 < size && Offset(num, size) <= base.Length
    modifies base
    ensures Heap(cmp, Elements(base[..], size, num), 0, num)
    ensures multiset(Elements(base[..], size, num)) == multiset(old(Elements(base[..], size, num)))
    ensures Beyond(base[..], size, num) == old(Beyond(base[..], size, num))
  {
    ghost var s, k: int := Elements(base[..], size, num), num / 2 - 1;
    var i, n := (num / 2 - 1) * size, num * size;
    OffsetProduct(num, size);
    if num >= 2 { OffsetProduct(num / 2 - 1, size); } else { assert i == 0 - size; }
    LeavesAreHeap(cmp, s, num / 2);
    while i >= 0
      invariant -1 <= k < num && OffsetOrBelow(i, k, size) && s == Elements(base[..], size, num)
      invariant Heap(cmp, s, k + 1, num)
      invariant multiset(s) == multiset(old(Elements(base[..], size, num)))
      invariant Beyond(base[..], size, num) == old(Beyond(base[..], size, num))
      decreases k
    {
      SiftDown(base, size, cmp, i, n, num, k, num);
      PermutedWhole(s, Elements(base[..], size, num), num);
      s := Elements(base[..], size, num);
      i, k := i - size, k - 1;
    }
  }

  /** A counter stepping down through the offsets, and below zero after the first element. */
  ghost predicate OffsetOrBelow(i: int, k: int, size: nat) {
    if k >= 0 then i == Offset(k, size) else i < 0
  }

  lemma LastOffset(num: nat, size: nat)
    requires size > 0
    ensures OffsetOrBelow(num * size - size, num - 1, size)
  {
    OffsetProduct(num, size);
  }

  lemma AtFirst(i: int, k: int, size: nat)
    requires size > 0 && OffsetOrBelow(i, k, size) && i <= 0
    ensures k <= 0
  {
  }

  /**
   * sort: a heapsort over num elements of size bytes. The byte counts are
   * int in the source and stay within it.
   */
  method Sort(base: array<u8>, num: nat, size: nat, cmp: Cmp)
    requires Preorder(cmp) && 0 < size <= 0x4000_0000
    requires Offset(num, size) <= 0x4000_0000 && Offset(num, size) <= base.Length
    modifies base
    ensures Sorted(cmp, Elements(base[..], size, num))
    ensures multiset(Elements(base[..], size, num)) == multiset(old(Elements(base[..], size, num)))
    ensures Beyond(base[..], size, num) == old(Beyond(base[..], size, num))
  {
    Heapify(base, num, size, cmp);
    ghost var s, k: int := Elements(base[..], size, num), num - 1;
    var i := num * size - size;
    LastOffset(num, size);
    while i > 0
      invariant -1 <= k < num && (k < 0 ==> num == 0) && OffsetOrBelow(i, k, size) && s == Elements(base[..], size, num)
      invariant Heap(cmp, s, 0, k + 1) && Settled(cmp, s, k + 1)
      invariant multiset(s) == multiset(old(Elements(base[..], size, num)))
      invariant Beyond(base[..], size, num) == old(Beyond(base[..], size, num))
      decreases k
    {
      s := SortRound(base, size, cmp, i, num, k, s);
      i, k := i - size, k - 1;
    }
    AtFirst(i, k, size);
    SettledIsSorted(cmp, s);
  }

  /** One round of the second loop: the top of the heap moves behind it. */
  method SortRound(base: array<u8>, size: nat, cmp: Cmp, i: nat, ghost num: nat, ghost k: nat, ghost s: seq<Elt>)
    returns (ghost t: seq<Elt>)
    requires Preorder(cmp) && 0 < size && Offset(num, size) <= base.Length && 0 < k < num && i == Offset(k, size)
    requires s == Elements(base[..], size, num)
    requires Heap(cmp, s, 0, k + 1) && Settled(cmp, s, k + 1)
    modifies base
    ensures t == Elements(base[..], size, num)
    ensures Heap(cmp, t, 0, k) && Settled(cmp, t, k) && multiset(t) == multiset(s)
    ensures Beyond(base[..], size, num) == old(Beyond(base[..], size, num))
  {
    TopSettles(cmp, s, k);
    ExchangePermuted(s, 0, k, num);
    PermutedWhole(s, Exchange(s, 0, k), num);
    Swap(base, size, 0, i, num, 0, k);
    SiftDown(base, size, cmp, 0, i, num, 0, k);
    t := Elements(base[..], size, num);
    PermutedWhole(Exchange(s, 0, k), t, k);
    SettledPermuted(cmp, Exchange(s, 0, k), t, k);
  }

  // ---------- bsearch ----------

  /** The key's comparison function falls along the array: it is never larger further on. */
  ghost predicate Falling<K(!new)>(cmp: (K, Elt) -> int, key: K, s: seq<Elt>) {
    forall i: nat, j: nat :: i < j < |s| ==> FallsTo(cmp, key, s[i], s[j])
  }

  predicate FallsTo<K>(cmp: (K, Elt) -> int, key: K, a: Elt, b: Elt) {
    (cmp(key, b) >= 0 ==> cmp(key, a) >= 0) && (cmp(key, a) <= 0 ==> cmp(key, b) <= 0)
  }

  /** What sort leaves behind can be searched with the same comparison function. */
  lemma SortedIsFalling(cmp: Cmp, s: seq<Elt>, key: Elt)
    requires Preorder(cmp) && Sorted(cmp, s)
    ensures Falling(cmp, key, s)
  {
    forall i: nat, j: nat | i < j < |s| ensures FallsTo(cmp, key, s[i], s[j]) {
      var a, b := s[i], s[j];
      assert cmp(a, b) <= 0;
      assert cmp(key, a) < 0 <==> cmp(a, key) > 0;
      assert cmp(a, key) < 0 <==> cmp(key, a) > 0;
      assert cmp(key, b) < 0 <==> cmp(b, key) > 0;
      assert cmp(b, key) < 0 <==> cmp(key, b) > 0;
      assert cmp(key, a) <= 0 && cmp(a, b) <= 0 ==> cmp(key, b) <= 0;
      assert cmp(a, b) <= 0 && cmp(b, key) <= 0 ==> cmp(a, key) <= 0;
    }
  }

  /**
   * bsearch: the byte offset of an element equal to the key, if there is
   * one. With a falling comparison whose zeros are exactly the equals,
   * None means that the key is equal to no element.
   */
  method Bsearch<K(!new)>(key: K, base: array<u8>, num: nat, size: nat, cmp: (K, Elt) -> int)
    returns (found: Option<nat>)
    requires 0 < size && Offset(num, size) <= 0x4000_0000 && Offset(num, size) <= base.Length
    requires Falling(cmp, key, Elements(base[..], size, num))
    ensures found.Some? <==> exists k: nat :: k < num && EqualAt(cmp, key, Elements(base[..], size, num), k)
    ensures found.Some? ==> exists k: nat ::
      k < num && found.value == Offset(k, size) && EqualAt(cmp, key, Elements(base[..], size, num), k)
  {
    ghost var s := Elements(base[..], size, num);
    var start: nat, end: nat := 0, num;
    while start < end
      invariant start <= end <= num
      invariant forall k: nat :: k < start ==> !EqualAt(cmp, key, s, k)
      invariant forall k: nat :: end <= k < num ==> !EqualAt(cmp, key, s, k)
    {
      var mid := start + (end - start) / 2;
      OffsetProduct(mid, size);
      var at := mid * size;
      var result := cmp(key, Read(base, size, at, num, mid));
      if result < 0 {
        forall k: nat | mid < k < num ensures !EqualAt(cmp, key, s, k) { assert FallsTo(cmp, key, s[mid], s[k]); }
        end := mid;
      } else if result > 0 {
        forall k: nat | k < mid ensures !EqualAt(cmp, key, s, k) { assert FallsTo(cmp, key, s[k], s[mid]); }
        start := mid + 1;
      } else {
        assert EqualAt(cmp, key, s, mid);
        return Some(at);
      }
    }
    return None;
  }

  predicate EqualAt<K>(cmp: (K, Elt) -> int, key: K, s: seq<Elt>, k: nat) {
    k < |s| && cmp(key, s[k]) == 0
  }
}
