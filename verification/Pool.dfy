/** Ownership of page frames: which are free, which belong to a live allocation, and how calls change that. */
module Pool {
  import opened Bits
  import opened Blocks
  import opened Options

  const PAGE_SIZE: nat := 4096
  const AREA_NUM: nat := 3

  /** A physical memory area, in bytes. */
  datatype Area = Area(begin: nat, size: nat)

  predicate InArea(a: Area, x: nat) {
    a.size != 0 && a.begin <= x * PAGE_SIZE < a.begin + a.size
  }

  /** The frame of a byte address. */
  function FrameOf(addr: nat): nat {
    addr / PAGE_SIZE
  }

  /** The `len` bytes from `addr` on are exactly the bytes of these frames. */
  ghost predicate Spans(addr: nat, len: nat, frames: set<nat>) {
    forall x: nat :: FrameOf(x) in frames <==> addr <= x < addr + len
  }

  /** A block's bytes begin at its head's address, a multiple of their number. */
  lemma BlockBytes(b: Block)
    requires Aligned(b)
    ensures Spans(b.head * PAGE_SIZE, Pow2(b.rank) * PAGE_SIZE, Frames(b))
    ensures b.head * PAGE_SIZE % (Pow2(b.rank) * PAGE_SIZE) == 0
  {
    forall x: nat ensures FrameOf(x) in Frames(b) <==>
      b.head * PAGE_SIZE <= x < b.head * PAGE_SIZE + Pow2(b.rank) * PAGE_SIZE
    {
      assert FrameOf(x) in Frames(b) <==> Holds(b, FrameOf(x));
    }
    var q, m := Shr(b.head, b.rank), Pow2(b.rank) * PAGE_SIZE;
    assert b.head * PAGE_SIZE == q * m by { assert q * Pow2(b.rank) * PAGE_SIZE == q * m; }
    DivUnique(q * m, m, q);
  }

  /** The first area holding frame `x`, or `|areas|`. */
  function AreaFrom(areas: seq<Area>, x: nat, i: nat): (a: nat)
    requires i <= |areas|
    ensures i <= a <= |areas| && (a < |areas| ==> InArea(areas[a], x))
    ensures forall j :: i <= j < a ==> !InArea(areas[j], x)
    decreases |areas| - i
  {
    if i == |areas| || InArea(areas[i], x) then i else AreaFrom(areas, x, i + 1)
  }

  function AreaOf(areas: seq<Area>, x: nat): nat {
    AreaFrom(areas, x, 0)
  }

  /** Whole pages, as the areas of the kernel are. */
  predicate WholePages(a: Area) {
    a.begin % PAGE_SIZE == 0 && a.size % PAGE_SIZE == 0
  }

  /** Where areas do not overlap, a byte's area is the one whose address range it is in. */
  lemma AreaOfByte(areas: seq<Area>, x: nat, a: nat)
    requires a < |areas| && forall i :: 0 <= i < |areas| ==> WholePages(areas[i])
    requires forall i, j :: 0 <= i < j < |areas| ==>
      areas[i].begin + areas[i].size <= areas[j].begin || areas[j].begin + areas[j].size <= areas[i].begin
    ensures AreaOf(areas, FrameOf(x)) == a <==> areas[a].begin <= x < areas[a].begin + areas[a].size
  {
    InWholeArea(areas[a], x);
    var b := AreaOf(areas, FrameOf(x));
    if b < |areas| && b != a {
      InWholeArea(areas[b], x);
      assert !(areas[a].begin <= x < areas[a].begin + areas[a].size);
    }
  }

  lemma InWholeArea(a: Area, x: nat)
    requires WholePages(a)
    ensures InArea(a, FrameOf(x)) <==> a.begin <= x < a.begin + a.size
  {
  }

  /** Every frame of the block exists and lies in one and the same area. */
  ghost predicate InOneArea(areas: seq<Area>, n: nat, b: Block) {
    && b.head + Pow2(b.rank) <= n
    && AreaOf(areas, b.head) < |areas|
    && forall x :: x in Frames(b) ==> AreaOf(areas, x) == AreaOf(areas, b.head)
  }

  /** The blocks of one area. */
  ghost function Local(areas: seq<Area>, blocks: set<Block>, a: nat): set<Block> {
    set b | b in blocks && AreaOf(areas, b.head) == a
  }

  /** Listed blocks and live allocations are proper, disjoint blocks; listed buddies of one area have been merged. */
  ghost predicate Owned(areas: seq<Area>, n: nat, listed: set<Block>, live: set<Block>) {
    && (forall b :: b in listed + live ==> IsBlock(b) && InOneArea(areas, n, b))
    && listed !! live
    && Disjoint(listed + live)
    && forall a :: NoBuddies(Local(areas, listed, a))
  }

  // ---------- What one call does to ownership ----------

  /** The free frames, and the blocks handed out. */
  datatype State = State(free: set<nat>, live: set<Block>)

  datatype Event =
    | Online(first: nat, count: nat)
    | Alloc(area: nat, rank: nat, result: Option<nat>)
    | Free(block: Block)

  predicate InRun(first: nat, count: nat, x: nat) {
    first <= x < first + count
  }

  ghost function Run(first: nat, count: nat): set<nat> {
    set x: nat | x < first + count && InRun(first, count, x)
  }

  lemma RunGrows(first: nat, count: nat)
    requires count > 0
    ensures Run(first, count) == Run(first, count - 1) + {first + count - 1}
  {
    forall x ensures x in Run(first, count) <==> x in Run(first, count - 1) || x == first + count - 1 {
      assert InRun(first, count, x) <==> InRun(first, count - 1, x) || x == first + count - 1;
    }
  }

  ghost function OnlineFrames(s: State): set<nat> {
    s.free + FramesOf(s.live)
  }

  ghost function AreaFree(areas: seq<Area>, s: State, a: nat): set<nat> {
    set x | x in s.free && AreaOf(areas, x) == a
  }

  /** The area holds a naturally aligned free run of 2^rank frames. */
  ghost predicate HasRun(areas: seq<Area>, s: State, a: nat, rank: nat) {
    exists h :: Fits(Block(h, rank), AreaFree(areas, s, a))
  }

  ghost predicate Enabled(areas: seq<Area>, n: nat, s: State, e: Event) {
    match e
    case Online(first, count) =>
      && Run(first, count) !! OnlineFrames(s)
      && first + count <= n
      && forall x :: x in Run(first, count) ==> AreaOf(areas, x) < |areas|
    case Alloc(a, rank, result) =>
      && a < |areas| && rank < RANK_NUM
      && (if result.None? then !HasRun(areas, s, a, rank)
          else Fits(Block(result.value, rank), AreaFree(areas, s, a)))
    case Free(b) => b in s.live
  }

  ghost function Next(s: State, e: Event): State {
    match e
    case Online(first, count) => State(s.free + Run(first, count), s.live)
    case Alloc(_, _, None) => s
    case Alloc(_, rank, Some(h)) => State(s.free - Frames(Block(h, rank)), s.live + {Block(h, rank)})
    case Free(b) => State(s.free + Frames(b), s.live - {b})
  }

  const EMPTY := State({}, {})

  /** The state after a run of calls. */
  ghost function After(es: seq<Event>): State {
    if es == [] then EMPTY else Next(After(es[..|es| - 1]), es[|es| - 1])
  }

  ghost predicate Legal(areas: seq<Area>, n: nat, es: seq<Event>) {
    forall i {:trigger es[i]} :: 0 <= i < |es| ==> Enabled(areas, n, After(es[..i]), es[i])
  }

  lemma LegalSnoc(areas: seq<Area>, n: nat, es: seq<Event>, e: Event)
    requires Legal(areas, n, es) && Enabled(areas, n, After(es), e)
    ensures Legal(areas, n, es + [e]) && After(es + [e]) == Next(After(es), e)
  {
    var fs := es + [e];
    assert fs[..|es|] == es;
    forall i {:trigger fs[i]} | 0 <= i < |fs| ensures Enabled(areas, n, After(fs[..i]), fs[i]) {
      if i < |es| { assert fs[..i] == es[..i]; }
    }
  }

  ghost function Onlined(es: seq<Event>): set<nat> {
    if es == [] then {}
    else Onlined(es[..|es| - 1]) +
         (match es[|es| - 1] case Online(f, c) => Run(f, c) case _ => {})
  }

  // ---------- Safety over whole runs ----------

  ghost predicate Safe(areas: seq<Area>, n: nat, s: State) {
    && (forall b :: b in s.live ==> IsBlock(b) && InOneArea(areas, n, b))
    && Disjoint(s.live)
    && s.free !! FramesOf(s.live)
    && forall x :: x in s.free ==> x < n && AreaOf(areas, x) < |areas|
  }

  lemma StepSafe(areas: seq<Area>, n: nat, s: State, e: Event)
    requires Safe(areas, n, s) && Enabled(areas, n, s, e)
    ensures Safe(areas, n, Next(s, e))
    ensures OnlineFrames(Next(s, e)) == OnlineFrames(s) + (match e case Online(f, c) => Run(f, c) case _ => {})
  {
    match e {
      case Online(_, _) =>
      case Alloc(a, rank, Some(h)) => AllocSafe(areas, n, s, a, Block(h, rank));
      case Alloc(_, _, None) =>
      case Free(b) => FreeSafe(areas, n, s, b);
    }
  }

  lemma AllocSafe(areas: seq<Area>, n: nat, s: State, a: nat, b: Block)
    requires Safe(areas, n, s) && a < |areas| && Fits(b, AreaFree(areas, s, a))
    ensures var s' := State(s.free - Frames(b), s.live + {b});
      Safe(areas, n, s') && OnlineFrames(s') == OnlineFrames(s)
  {
    FitsInArea(areas, n, s, a, b);
    FramesAdd(s.live, b);
    ApartFromLive(s, b);
    TakenFromFree(s.free, FramesOf(s.live), Frames(b));
  }

  lemma ApartFromLive(s: State, b: Block)
    requires s.free !! FramesOf(s.live) && Frames(b) <= s.free && Disjoint(s.live)
    ensures forall c :: c in s.live ==> Frames(c) !! Frames(b)
    ensures Disjoint(s.live + {b})
  {
    forall c | c in s.live ensures Frames(c) !! Frames(b) {
      forall x | x in Frames(c) ensures x in FramesOf(s.live) { }
    }
  }

  lemma TakenFromFree(free: set<nat>, live: set<nat>, taken: set<nat>)
    requires free !! live && taken <= free
    ensures (free - taken) + (live + taken) == free + live && (free - taken) !! (live + taken)
  {
  }

  /** A block of an area's free frames lies inside that area. */
  lemma FitsInArea(areas: seq<Area>, n: nat, s: State, a: nat, b: Block)
    requires Safe(areas, n, s) && a < |areas| && Fits(b, AreaFree(areas, s, a))
    ensures IsBlock(b) && InOneArea(areas, n, b) && Frames(b) <= s.free
  {
    assert b.head in Frames(b) && b.head + Pow2(b.rank) - 1 in Frames(b);
  }

  lemma FreeSafe(areas: seq<Area>, n: nat, s: State, b: Block)
    requires Safe(areas, n, s) && b in s.live
    ensures var s' := State(s.free + Frames(b), s.live - {b});
      Safe(areas, n, s') && OnlineFrames(s') == OnlineFrames(s)
  {
    FramesRemove(s.live, b);
  }

  lemma FramesAdd(blocks: set<Block>, b: Block)
    ensures FramesOf(blocks + {b}) == FramesOf(blocks) + Frames(b)
  {
    forall x | x in FramesOf(blocks) + Frames(b) ensures x in FramesOf(blocks + {b}) {
      if x in Frames(b) {
        assert b in blocks + {b};
      } else {
        var c :| c in blocks && x in Frames(c);
        assert c in blocks + {b};
      }
    }
  }

  lemma FramesRemove(blocks: set<Block>, b: Block)
    requires Disjoint(blocks) && b in blocks
    ensures FramesOf(blocks - {b}) == FramesOf(blocks) - Frames(b)
    ensures Frames(b) <= FramesOf(blocks)
  {
    FramesAdd(blocks - {b}, b);
    assert blocks - {b} + {b} == blocks;
  }

  /** In every run live allocations are disjoint aligned blocks inside one area, never overlap a free
      frame, and together with the free frames are exactly the frames brought online. */
  lemma {:induction false} RunSafe(areas: seq<Area>, n: nat, es: seq<Event>)
    requires Legal(areas, n, es)
    ensures Safe(areas, n, After(es)) && OnlineFrames(After(es)) == Onlined(es)
  {
    if es != [] {
      var k := |es| - 1;
      assert Legal(areas, n, es[..k]) by {
        forall i | 0 <= i < k ensures Enabled(areas, n, After(es[..k][..i]), es[..k][i]) {
          assert es[..k][..i] == es[..i] && es[..k][i] == es[i];
        }
      }
      RunSafe(areas, n, es[..k]);
      StepSafe(areas, n, After(es[..k]), es[k]);
    }
  }

  // ---------- The listed blocks are a function of the free frames ----------

  lemma LocalFrames(areas: seq<Area>, n: nat, listed: set<Block>, live: set<Block>, a: nat)
    requires Owned(areas, n, listed, live)
    ensures FramesOf(Local(areas, listed, a)) == AreaFree(areas, State(FramesOf(listed), live), a)
    ensures Coalesced(Local(areas, listed, a))
  {
    var local := Local(areas, listed, a);
    forall x | x in FramesOf(listed) && AreaOf(areas, x) == a ensures x in FramesOf(local) {
      var b :| b in listed && x in Frames(b);
      assert b in listed + live;
      assert b in local;
    }
    forall x | x in FramesOf(local) ensures x in FramesOf(listed) && AreaOf(areas, x) == a {
      var b :| b in local && x in Frames(b);
      assert b in listed + live;
    }
    assert local <= listed + live;
  }

  /** Per area, the listed blocks are exactly the maximal blocks of its free frames. */
  lemma ListedIsMaximal(areas: seq<Area>, n: nat, listed: set<Block>, live: set<Block>, a: nat)
    requires Owned(areas, n, listed, live)
    ensures Local(areas, listed, a) == MaximalBlocks(AreaFree(areas, State(FramesOf(listed), live), a))
  {
    LocalFrames(areas, n, listed, live, a);
    CoalescedIsMaximal(Local(areas, listed, a));
  }

  /** A usable run exists exactly when a block of at least that rank is listed. */
  lemma RunIffListed(areas: seq<Area>, n: nat, listed: set<Block>, live: set<Block>, a: nat, rank: nat)
    requires Owned(areas, n, listed, live) && rank < RANK_NUM
    ensures HasRun(areas, State(FramesOf(listed), live), a, rank)
       <==> exists b :: b in Local(areas, listed, a) && b.rank >= rank
  {
    var s, local := State(FramesOf(listed), live), Local(areas, listed, a);
    LocalFrames(areas, n, listed, live, a);
    if HasRun(areas, s, a, rank) {
      var h :| Fits(Block(h, rank), AreaFree(areas, s, a));
      var c := RunInsideBlock(local, Block(h, rank));
    }
    if b :| b in local && b.rank >= rank {
      var c := Shrink(b, rank);
      assert Frames(c) <= AreaFree(areas, s, a);
      assert c == Block(c.head, rank);
    }
  }

  /** Any aligned block has an aligned sub-block of each lower rank at its head. */
  lemma {:induction false} Shrink(b: Block, rank: nat) returns (c: Block)
    requires Aligned(b) && rank <= b.rank
    ensures c == Block(b.head, rank) && Aligned(c) && Frames(c) <= Frames(b)
    decreases b.rank
  {
    c := b;
    if rank < b.rank {
      var l := Children(b);
      ParentFacts(l);
      c := Shrink(l, rank);
    }
  }

  /** Two runs that onlined the same frames and hold the same live blocks list the same free blocks,
      whatever order of calls led there. */
  lemma HistoryIndependent(areas: seq<Area>, n: nat, es1: seq<Event>, es2: seq<Event>,
                           listed1: set<Block>, listed2: set<Block>)
    requires Legal(areas, n, es1) && Legal(areas, n, es2)
    requires Onlined(es1) == Onlined(es2) && After(es1).live == After(es2).live
    requires Owned(areas, n, listed1, After(es1).live) && FramesOf(listed1) == After(es1).free
    requires Owned(areas, n, listed2, After(es2).live) && FramesOf(listed2) == After(es2).free
    ensures listed1 == listed2
  {
    RunSafe(areas, n, es1);
    RunSafe(areas, n, es2);
    assert After(es1).free == Onlined(es1) - FramesOf(After(es1).live);
    assert After(es2).free == Onlined(es2) - FramesOf(After(es2).live);
    forall b ensures b in listed1 <==> b in listed2 {
      var a := AreaOf(areas, b.head);
      ListedIsMaximal(areas, n, listed1, After(es1).live, a);
      ListedIsMaximal(areas, n, listed2, After(es2).live, a);
      assert b in listed1 <==> b in Local(areas, listed1, a);
      assert b in listed2 <==> b in Local(areas, listed2, a);
    }
  }

  // ---------- The moves page_alloc and page_free are made of ----------

  /** Taking a block off its list. */
  lemma TakeKeepsOwned(areas: seq<Area>, n: nat, listed: set<Block>, live: set<Block>, b: Block)
    requires Owned(areas, n, listed, live) && b in listed
    ensures Owned(areas, n, listed - {b}, live + {b})
    ensures FramesOf(listed - {b}) == FramesOf(listed) - Frames(b) && Frames(b) <= FramesOf(listed)
  {
    assert (listed - {b}) + (live + {b}) == listed + live;
    assert forall a :: Local(areas, listed - {b}, a) <= Local(areas, listed, a);
    assert Disjoint(listed);
    FramesRemove(listed, b);
  }

  /** Listing a block whose buddy is not listed in the same area. */
  lemma GiveKeepsOwned(areas: seq<Area>, n: nat, listed: set<Block>, live: set<Block>, b: Block)
    requires Owned(areas, n, listed, live) && b in live
    requires b.rank + 1 < RANK_NUM ==> Buddy(b) !in Local(areas, listed, AreaOf(areas, b.head))
    ensures Owned(areas, n, listed + {b}, live - {b})
    ensures FramesOf(listed + {b}) == FramesOf(listed) + Frames(b) && Frames(b) !! FramesOf(listed)
  {
    assert b in listed + live;
    assert (listed + {b}) + (live - {b}) == listed + live;
    ParentFacts(b);
    forall a, c | c in Local(areas, listed + {b}, a) && c.rank + 1 < RANK_NUM
      ensures Buddy(c) !in Local(areas, listed + {b}, a)
    {
      assert c in listed + live;
      ParentFacts(c);
      assert c == b || c in Local(areas, listed, a);
    }
    FramesAdd(listed, b);
    forall x | x in Frames(b) ensures x !in FramesOf(listed) {
      assert forall c :: c in listed ==> c in listed + live && c != b;
    }
  }

  /** Two unlisted buddies of one area become their parent; `half` is either of them. */
  lemma FuseKeepsOwned(areas: seq<Area>, n: nat, listed: set<Block>, live: set<Block>, half: Block)
    requires Owned(areas, n, listed, live) && half in live && Buddy(half) in live
    requires half.rank + 1 < RANK_NUM && AreaOf(areas, half.head) == AreaOf(areas, Buddy(half).head)
    ensures Owned(areas, n, listed, live - {half, Buddy(half)} + {Parent(half)})
    ensures AreaOf(areas, Parent(half).head) == AreaOf(areas, half.head)
  {
    var p, other := Parent(half), Buddy(half);
    assert half in listed + live && other in listed + live;
    ParentInOneArea(areas, n, half);
    forall c | c in listed + live && c != half && c != other ensures Frames(c) !! Frames(p) && c != p {
      ApartFromBoth(c, half);
    }
    assert p != half && p != other;
    ReplaceKeepsOwned(areas, n, listed, live, {half, other}, {p});
  }

  lemma ParentInOneArea(areas: seq<Area>, n: nat, half: Block)
    requires IsBlock(half) && half.rank + 1 < RANK_NUM
    requires InOneArea(areas, n, half) && InOneArea(areas, n, Buddy(half))
    requires AreaOf(areas, half.head) == AreaOf(areas, Buddy(half).head)
    ensures IsBlock(Parent(half)) && InOneArea(areas, n, Parent(half))
    ensures AreaOf(areas, Parent(half).head) == AreaOf(areas, half.head)
  {
    ParentFacts(half);
    assert Parent(half).head in Frames(Parent(half));
    var last := Parent(half).head + Pow2(half.rank + 1) - 1;
    assert last in Frames(Parent(half));
    assert last in Frames(half) || last in Frames(Buddy(half));
  }

  lemma ApartFromBoth(c: Block, half: Block)
    requires Aligned(half) && Frames(c) !! Frames(half) && Frames(c) !! Frames(Buddy(half))
    ensures Frames(c) !! Frames(Parent(half)) && c != Parent(half)
  {
    ParentFacts(half);
    assert half.head in Frames(half) && half.head in Frames(Parent(half));
  }

  /** Exchanging some live blocks for others on the same frames keeps ownership. */
  lemma ReplaceKeepsOwned(areas: seq<Area>, n: nat, listed: set<Block>, live: set<Block>,
                          gone: set<Block>, come: set<Block>)
    requires Owned(areas, n, listed, live) && gone <= live && Disjoint(come)
    requires forall b :: b in come ==> IsBlock(b) && InOneArea(areas, n, b)
    requires forall b, c :: b in come && c in listed + live && c !in gone ==> Frames(c) !! Frames(b) && c != b
    ensures Owned(areas, n, listed, live - gone + come)
  {
    var live' := live - gone + come;
    assert forall c :: c in listed + live' <==> c in come || (c in listed + live && c !in gone);
  }

  /** A live block splits into its two halves. */
  lemma SplitKeepsOwned(areas: seq<Area>, n: nat, listed: set<Block>, live: set<Block>, b: Block) returns (l: Block)
    requires Owned(areas, n, listed, live) && b in live && b.rank > 0
    ensures l == Block(b.head, b.rank - 1) && Buddy(l).rank == b.rank - 1
    ensures Owned(areas, n, listed, live - {b} + {l, Buddy(l)})
    ensures l !in listed + live && Buddy(l) !in listed + live && l != Buddy(l)
    ensures Frames(b) == Frames(l) + Frames(Buddy(l)) && Frames(l) !! Frames(Buddy(l))
    ensures AreaOf(areas, Buddy(l).head) == AreaOf(areas, b.head)
  {
    assert b in listed + live;
    l := Children(b);
    ParentFacts(l);
    var r := Buddy(l);
    assert l.head in Frames(l) && r.head in Frames(r);
    assert r.head + Pow2(r.rank) - 1 in Frames(b) && l.head + Pow2(l.rank) - 1 in Frames(b);
    forall c | c in listed + live && c != b
      ensures Frames(c) !! Frames(l) && Frames(c) !! Frames(r) && c != l && c != r
    {
      assert Frames(c) !! Frames(b);
      assert c.head in Frames(c);
    }
    assert l != b && r != b;
    ReplaceKeepsOwned(areas, n, listed, live, {b}, {l, r});
  }

  /** A frame nobody owns can be handed out as a block of rank 0. */
  lemma OnlineFrame(areas: seq<Area>, n: nat, listed: set<Block>, live: set<Block>, x: nat)
    requires Owned(areas, n, listed, live) && x < n && AreaOf(areas, x) < |areas|
    requires x !in FramesOf(listed) && x !in FramesOf(live)
    ensures Frames(Block(x, 0)) == {x} && Block(x, 0) !in live && Block(x, 0) !in listed
    ensures Owned(areas, n, listed, live + {Block(x, 0)})
    ensures forall b :: b in listed + live ==> b.head != x
  {
    var b := Block(x, 0);
    assert Shr(x, 0) == x;
    assert Frames(b) == {x};
    forall c | c in listed + live ensures Frames(c) !! Frames(b) && c.head != x && c != b {
      assert c.head in Frames(c);
      assert x !in Frames(c);
    }
    ReplaceKeepsOwned(areas, n, listed, live, {}, {b});
    assert live - {} + {b} == live + {b};
  }

  /** No other block starts inside a given one. */
  lemma HeadsApart(areas: seq<Area>, n: nat, listed: set<Block>, live: set<Block>, b: Block, x: nat)
    requires Owned(areas, n, listed, live) && b in listed + live && x in Frames(b)
    ensures forall c :: c in listed + live && c != b ==> c.head != x
  {
    forall c | c in listed + live && c != b ensures c.head != x {
      assert c.head in Frames(c);
    }
  }

  /** The same, with the two halves' heads free of other blocks. */
  lemma SplitApart(areas: seq<Area>, n: nat, listed: set<Block>, live: set<Block>, b: Block) returns (l: Block)
    requires Owned(areas, n, listed, live) && b in live && b.rank > 0
    ensures l == Block(b.head, b.rank - 1) && Buddy(l).rank == b.rank - 1
    ensures Owned(areas, n, listed, live - {b} + {l, Buddy(l)})
    ensures l !in listed + live && Buddy(l) !in listed + live && l != Buddy(l)
    ensures Frames(b) == Frames(l) + Frames(Buddy(l)) && AreaOf(areas, Buddy(l).head) == AreaOf(areas, b.head)
    ensures forall c :: c in listed + live && c != b ==> c.head != l.head && c.head != Buddy(l).head
  {
    l := SplitKeepsOwned(areas, n, listed, live, b);
    HeadIn(l);
    HeadIn(Buddy(l));
    HeadsApart(areas, n, listed, live, b, Buddy(l).head);
    HeadsApart(areas, n, listed, live, b, l.head);
  }

  lemma FusedIsNew(areas: seq<Area>, n: nat, listed: set<Block>, live: set<Block>, half: Block)
    requires Owned(areas, n, listed, live) && half in live
    ensures Parent(half) !in listed + live
  {
    ParentFacts(half);
    assert half in listed + live && half.head in Frames(half) && half.head in Frames(Parent(half));
  }
}
