/** Naturally aligned power-of-two runs of page frames, and the blocks a buddy system keeps of a frame set. */
module Blocks {
  import opened Bits

  // BUDDY_RANKNUM: ranks 0 (4 KB) to 14 (64 MB).
  const RANK_NUM: nat := 15

  datatype Block = Block(head: nat, rank: nat)

  ghost predicate Aligned(b: Block) {
    Shr(b.head, b.rank) * Pow2(b.rank) == b.head
  }

  predicate Holds(b: Block, x: nat) {
    b.head <= x < b.head + Pow2(b.rank)
  }

  ghost function Frames(b: Block): set<nat> {
    set x: nat | x < b.head + Pow2(b.rank) && Holds(b, x)
  }

  lemma HeadIn(b: Block)
    ensures b.head in Frames(b)
  {
    assert Holds(b, b.head);
  }

  ghost predicate IsBlock(b: Block) {
    b.rank < RANK_NUM && Aligned(b)
  }

  /** The block the source finds by toggling bit `rank` of the frame index. */
  function Buddy(b: Block): Block {
    Block(Xor(b.head, Pow2(b.rank)), b.rank)
  }

  function Lower(b: Block): nat {
    var h := Buddy(b).head;
    if b.head < h then b.head else h
  }

  /** A block merged with its buddy. */
  function Parent(b: Block): Block {
    Block(Lower(b), b.rank + 1)
  }

  // ---------- Geometry of aligned blocks ----------

  /** Membership in an aligned block is agreement on the high bits. */
  lemma FrameHighBits(b: Block, x: nat)
    requires Aligned(b)
    ensures x in Frames(b) <==> Shr(x, b.rank) == Shr(b.head, b.rank)
  {
    ShrBounds(x, b.rank);
    if x in Frames(b) { ShrUnique(x, b.rank, Shr(b.head, b.rank)); }
  }

  /** Aligned blocks never overlap partially. */
  lemma Nesting(a: Block, b: Block, x: nat)
    requires Aligned(a) && Aligned(b) && a.rank <= b.rank
    requires x in Frames(a) && x in Frames(b)
    ensures Frames(a) <= Frames(b)
    ensures a.rank == b.rank ==> a == b
  {
    FrameHighBits(a, x);
    FrameHighBits(b, x);
    forall y | y in Frames(a) ensures y in Frames(b) {
      FrameHighBits(a, y);
      FrameHighBits(b, y);
      ShrNest(x, y, a.rank, b.rank);
    }
  }

  lemma ParentFacts(b: Block)
    requires Aligned(b)
    ensures Aligned(Buddy(b)) && Aligned(Parent(b)) && Buddy(Buddy(b)) == b && Buddy(b) != b
    ensures Frames(Parent(b)) == Frames(b) + Frames(Buddy(b)) && Frames(b) !! Frames(Buddy(b))
    ensures Parent(b).head == if Shr(b.head, b.rank) % 2 == 0 then b.head else Buddy(b).head
    ensures Parent(Buddy(b)) == Parent(b)
  {
    var q, p := Shr(b.head, b.rank), Pow2(b.rank);
    BuddyFacts(b);
    XorCancel(b.head, p);
    ParentShift(q, p);
    ShrUnique(if q % 2 == 0 then b.head else b.head - p, b.rank + 1, q / 2);
  }

  lemma BuddyFacts(b: Block)
    requires Aligned(b)
    ensures var q, p := Shr(b.head, b.rank), Pow2(b.rank);
      && Buddy(b).head == (if q % 2 == 0 then b.head + p else b.head - p)
      && Shr(Buddy(b).head, b.rank) == (if q % 2 == 0 then q + 1 else q - 1)
      && Aligned(Buddy(b))
  {
    var q, p := Shr(b.head, b.rank), Pow2(b.rank);
    XorPow2(b.head, b.rank);
    ParentShift(q, p);
    if q % 2 == 0 {
      ShrUnique(b.head + p, b.rank, q + 1);
    } else {
      ShrUnique(b.head - p, b.rank, q - 1);
    }
  }

  lemma ParentShift(q: nat, p: nat)
    ensures (q / 2) * (2 * p) == (q - q % 2) * p
    ensures (q + 1) * p == q * p + p && (q - 1) * p == q * p - p
  {
    assert q - q % 2 == 2 * (q / 2);
    assert 2 * (q / 2) * p == (q / 2) * (2 * p);
  }

  /** The two children of an aligned block. */
  lemma Children(b: Block) returns (l: Block)
    requires Aligned(b) && b.rank > 0
    ensures l == Block(b.head, b.rank - 1) && Aligned(l) && Parent(l) == b
  {
    l := Block(b.head, b.rank - 1);
    var q, p := Shr(b.head, b.rank), Pow2(b.rank - 1);
    assert q * (2 * p) == (2 * q) * p;
    ShrUnique(b.head, b.rank - 1, 2 * q);
    ParentFacts(l);
  }

  /** A strictly larger aligned block over one of two buddies covers their parent. */
  lemma LargerCoversParent(b: Block, c: Block)
    requires Aligned(b) && Aligned(c) && Frames(b) <= Frames(c) && c != b
    ensures c.rank > b.rank && Frames(Parent(b)) <= Frames(c)
  {
    assert b.head in Frames(b) && b.head + Pow2(b.rank) - 1 in Frames(b);
    if c.rank <= b.rank {
      Nesting(c, b, b.head);
      Pow2Mono(c.rank, b.rank);
    } else {
      ParentFacts(b);
      Nesting(Parent(b), c, b.head);
    }
  }

  // ---------- Blocks of a frame set ----------

  ghost predicate Fits(b: Block, frames: set<nat>) {
    IsBlock(b) && Frames(b) <= frames
  }

  /** No other aligned block of an allowed rank inside the frame set contains this one. */
  ghost predicate Maximal(b: Block, frames: set<nat>) {
    Fits(b, frames) && forall c :: Fits(c, frames) && Frames(b) <= Frames(c) ==> c == b
  }

  ghost function MaximalBlocks(frames: set<nat>): (blocks: set<Block>)
    ensures forall b :: b in blocks <==> Maximal(b, frames)
  {
    var blocks := set h, r | h in frames && 0 <= r < RANK_NUM && Maximal(Block(h, r), frames) :: Block(h, r);
    assert forall b :: Maximal(b, frames) ==> b.head in Frames(b) && b == Block(b.head, b.rank);
    blocks
  }

  ghost function FramesOf(blocks: set<Block>): set<nat> {
    set b, x | b in blocks && x in Frames(b) :: x
  }

  ghost predicate Disjoint(blocks: set<Block>) {
    forall b, c :: b in blocks && c in blocks && b != c ==> Frames(b) !! Frames(c)
  }

  ghost predicate NoBuddies(blocks: set<Block>) {
    forall b :: b in blocks && b.rank + 1 < RANK_NUM ==> Buddy(b) !in blocks
  }

  /** Disjoint aligned blocks of which no two could be merged. */
  ghost predicate Coalesced(blocks: set<Block>) {
    (forall b :: b in blocks ==> IsBlock(b)) && Disjoint(blocks) && NoBuddies(blocks)
  }

  /** Every usable run lies inside a single coalesced block: merging never leaves one hidden. */
  lemma {:induction false} RunInsideBlock(blocks: set<Block>, b: Block) returns (c: Block)
    requires Coalesced(blocks) && Fits(b, FramesOf(blocks))
    ensures c in blocks && Frames(b) <= Frames(c) && b.rank <= c.rank
    decreases b.rank
  {
    if b.rank == 0 {
      assert b.head in Frames(b);
      c :| c in blocks && b.head in Frames(c);
      Nesting(b, c, b.head);
    } else {
      var l := Children(b);
      ParentFacts(l);
      c := RunInsideBlock(blocks, l);
      var d := RunInsideBlock(blocks, Buddy(l));
      if c != l {
        LargerCoversParent(l, c);
      } else if d != Buddy(l) {
        LargerCoversParent(Buddy(l), d);
        c := d;
      } else {
        assert false;
      }
    }
  }

  /** A coalesced block set is determined by the frames it covers: it is the set of maximal blocks. */
  lemma CoalescedIsMaximal(blocks: set<Block>)
    requires Coalesced(blocks)
    ensures blocks == MaximalBlocks(FramesOf(blocks))
  {
    var frames := FramesOf(blocks);
    forall b ensures b in blocks <==> Maximal(b, frames) {
      if b in blocks {
        forall c | Fits(c, frames) && Frames(b) <= Frames(c) ensures c == b {
          var d := RunInsideBlock(blocks, c);
          assert b.head in Frames(b);
          if c != b {
            LargerCoversParent(b, c);
            assert false;
          }
        }
      } else if Maximal(b, frames) {
        var c := RunInsideBlock(blocks, b);
        assert Fits(c, frames);
      }
    }
  }

  /** Conversely the maximal blocks of any frame set cover it, are disjoint and cannot be merged further. */
  lemma MaximalIsCoalesced(frames: set<nat>)
    ensures Coalesced(MaximalBlocks(frames)) && FramesOf(MaximalBlocks(frames)) == frames
  {
    var blocks := MaximalBlocks(frames);
    forall b, c | b in blocks && c in blocks && b != c ensures Frames(b) !! Frames(c) {
      if x :| x in Frames(b) && x in Frames(c) {
        if b.rank <= c.rank { Nesting(b, c, x); } else { Nesting(c, b, x); }
      }
    }
    forall b | b in blocks && b.rank + 1 < RANK_NUM ensures Buddy(b) !in blocks {
      ParentFacts(b);
      assert Frames(b) <= Frames(Parent(b));
      assert b != Parent(b);
      assert !Fits(Parent(b), frames);
    }
    forall x | x in frames ensures x in FramesOf(blocks) {
      assert Shr(x, 0) == x && Frames(Block(x, 0)) == {x};
      var m := LargestOver(Block(x, 0), frames);
      assert x in Frames(m);
    }
  }

  lemma {:induction false} LargestOver(b: Block, frames: set<nat>) returns (m: Block)
    requires Fits(b, frames)
    ensures Maximal(m, frames) && Frames(b) <= Frames(m)
    decreases RANK_NUM - b.rank
  {
    ParentFacts(b);
    if Fits(Parent(b), frames) {
      m := LargestOver(Parent(b), frames);
    } else {
      m := b;
      forall c | Fits(c, frames) && Frames(b) <= Frames(c) ensures c == b {
        if c != b {
          LargerCoversParent(b, c);
          assert Fits(Parent(b), frames);
        }
      }
    }
  }
}
