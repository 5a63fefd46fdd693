/** The buddy page allocator: one free list per area and rank, split on allocation, coalesced on release. */
module Buddy {
  import opened Bits
  import opened Blocks
  import opened Options
  import opened PageRank
  import opened Pool

  /** A list of page indices without one of them. */
  function Without(s: seq<nat>, k: nat): (r: seq<nat>)
    ensures forall x :: x in r <==> x in s && x != k
    ensures NoRepeats(s) ==> NoRepeats(r)
  {
    if s == [] then []
    else if s[0] == k then Without(s[1..], k)
    else
      assert forall x :: x in s <==> x == s[0] || x in s[1..];
      var r := Without(s[1..], k);
      assert NoRepeats(s) ==> NoRepeats(s[1..]) && s[0] !in r by {
        assert forall i :: 0 <= i < |s[1..]| ==> s[1..][i] == s[i + 1];
      }
      [s[0]] + r
  }

  ghost predicate NoRepeats(s: seq<nat>) {
    forall i, j :: 0 <= i < j < |s| ==> s[i] != s[j]
  }

  /** The page an allocation starts from: the head of the first non-empty list of at least the rank. */
  function FirstListed(lists: seq<seq<nat>>, rank: nat): Option<nat>
    decreases |lists| - rank
  {
    if rank >= |lists| then None
    else if lists[rank] != [] then Some(lists[rank][0])
    else FirstListed(lists, rank + 1)
  }

  /** NULL is 0, so page frame 0 cannot be told from failure. */
  function Address(page: Option<nat>): nat {
    if page.None? then 0 else page.value * PAGE_SIZE
  }

  type Lists = seq<seq<seq<nat>>>

  /** List r of area a holds exactly the listed blocks of that area and rank, each once. */
  ghost predicate ListsMatch(areas: seq<Area>, fpage: Lists, listed: set<Block>) {
    && |areas| == AREA_NUM == |fpage|
    && (forall a :: 0 <= a < AREA_NUM ==> |fpage[a]| == RANK_NUM)
    && (forall a, r :: 0 <= a < AREA_NUM && 0 <= r < RANK_NUM ==> NoRepeats(fpage[a][r]))
    && (forall a, r, k :: 0 <= a < AREA_NUM && 0 <= r < RANK_NUM ==>
          (k in fpage[a][r] <==> Block(k, r) in Local(areas, listed, a)))
  }

  function SetList(fpage: Lists, a: nat, r: nat, l: seq<nat>): (fpage': Lists)
    requires a < |fpage| && r < |fpage[a]|
    ensures |fpage'| == |fpage| && forall i :: 0 <= i < |fpage| ==> |fpage'[i]| == |fpage[i]|
    ensures forall i, j :: 0 <= i < |fpage| && 0 <= j < |fpage[i]| ==>
              fpage'[i][j] == if i == a && j == r then l else fpage[i][j]
  {
    fpage[a := fpage[a][r := l]]
  }

  /** The search loop finds a page exactly when the area lists a block of sufficient rank. */
  lemma NoneListed(areas: seq<Area>, fpage: Lists, listed: set<Block>, area: nat, want: nat)
    requires ListsMatch(areas, fpage, listed) && area < AREA_NUM && want < RANK_NUM
    requires forall b :: b in listed ==> b.rank < RANK_NUM
    ensures FirstListed(fpage[area], want).None? <==> !exists b :: b in Local(areas, listed, area) && b.rank >= want
  {
    var r := FirstRank(fpage[area], want);
    if r < RANK_NUM {
      assert fpage[area][r][0] in fpage[area][r];
      assert Block(fpage[area][r][0], r) in Local(areas, listed, area);
    }
    if b :| b in Local(areas, listed, area) && b.rank >= want {
      assert b == Block(b.head, b.rank);
      assert b.head in fpage[area][b.rank];
    }
  }

  /** 64 MB and less needs a rank that there is. */
  lemma RankFits(size: nat, rank: nat)
    requires size <= 0x400_0000 && (rank > 0 ==> Pow2(rank - 1) * PAGE_SIZE < size)
    ensures rank < RANK_NUM
  {
    assert Pow2(14) == 0x4000 by { Pow2Values(); Pow2Add(12, 2); }
    if rank >= RANK_NUM { Pow2Mono(14, rank - 1); }
  }

  /** With frame 0 not free, a NULL address is the search's None. */
  lemma NullIsHonest(areas: seq<Area>, n: nat, fpage: Lists, listed: set<Block>, live: set<Block>, a: nat, want: nat)
    requires Owned(areas, n, listed, live) && ListsMatch(areas, fpage, listed) && a < AREA_NUM && want < RANK_NUM
    requires 0 !in AreaFree(areas, State(FramesOf(listed), live), a)
    ensures Address(FirstListed(fpage[a], want)) == 0 <==> !HasRun(areas, State(FramesOf(listed), live), a, want)
  {
    RunIffListed(areas, n, listed, live, a, want);
    assert forall b :: b in listed ==> b in listed + live;
    NoneListed(areas, fpage, listed, a, want);
    var r := FirstRank(fpage[a], want);
    if r < RANK_NUM {
      var b := Block(fpage[a][r][0], r);
      assert b.head in fpage[a][r] && b in Local(areas, listed, a);
      HeadIn(b);
    }
  }

  /** The answer of the search is right for this order of the lists. */
  ghost predicate Honest(areas: seq<Area>, fpage: Lists, s: State, a: nat, want: nat)
    requires a < |fpage|
  {
    Address(FirstListed(fpage[a], want)) == 0 <==> !HasRun(areas, s, a, want)
  }

  /** Whatever the order of the free lists, and for every rank. */
  ghost predicate AlwaysHonest(areas: seq<Area>, listed: set<Block>, s: State, a: nat) {
    forall f: Lists, want: nat ::
      ListsMatch(areas, f, listed) && want < RANK_NUM && a < |f| ==> Honest(areas, f, s, a, want)
  }

  /** NULL means "no aligned free run" exactly as long as frame 0 is not free in the area. */
  lemma NullHonestIff(areas: seq<Area>, n: nat, fpage: Lists, listed: set<Block>, live: set<Block>, a: nat)
    requires Owned(areas, n, listed, live) && ListsMatch(areas, fpage, listed) && a < AREA_NUM
    ensures var s := State(FramesOf(listed), live);
      AlwaysHonest(areas, listed, s, a) <==> 0 !in AreaFree(areas, s, a)
  {
    var s := State(FramesOf(listed), live);
    if 0 !in AreaFree(areas, s, a) {
      forall f: Lists, want: nat | ListsMatch(areas, f, listed) && want < RANK_NUM && a < |f|
        ensures Honest(areas, f, s, a, want)
      {
        NullIsHonest(areas, n, f, listed, live, a, want);
      }
    } else {
      var f, want := ZeroFirst(areas, n, fpage, listed, live, a);
      assert !Honest(areas, f, s, a, want);
    }
  }

  /** If frame 0 is free, some order of the lists has it first, and the address returned is NULL. */
  lemma ZeroFirst(areas: seq<Area>, n: nat, fpage: Lists, listed: set<Block>, live: set<Block>, a: nat)
    returns (f: Lists, want: nat)
    requires Owned(areas, n, listed, live) && ListsMatch(areas, fpage, listed) && a < AREA_NUM
    requires 0 in AreaFree(areas, State(FramesOf(listed), live), a)
    ensures want < RANK_NUM && ListsMatch(areas, f, listed)
    ensures !Honest(areas, f, State(FramesOf(listed), live), a, want)
  {
    var b :| b in listed && 0 in Frames(b);
    assert b in listed + live && b.head == 0 && b in Local(areas, listed, a);
    want := b.rank;
    f := MoveToFront(areas, fpage, listed, b, a);
    RunIffListed(areas, n, listed, live, a, want);
    assert FirstListed(f[a], want) == Some(0);
  }

  /** Moving a listed page to the front of its list. */
  lemma MoveToFront(areas: seq<Area>, fpage: Lists, listed: set<Block>, b: Block, a: nat) returns (f: Lists)
    requires ListsMatch(areas, fpage, listed) && b in listed && b.rank < RANK_NUM
    requires a == AreaOf(areas, b.head) < AREA_NUM
    ensures ListsMatch(areas, f, listed) && f[a][b.rank] != [] && f[a][b.rank][0] == b.head
  {
    var gone := SetList(fpage, a, b.rank, Without(fpage[a][b.rank], b.head));
    ListsRemove(areas, fpage, listed, b, a);
    ListsAdd(areas, gone, listed - {b}, b, a);
    assert listed - {b} + {b} == listed;
    f := SetList(gone, a, b.rank, [b.head] + gone[a][b.rank]);
  }

  /** One frame of the low area can be brought online. */
  lemma OneFrameOnline(areas: seq<Area>, k: nat)
    requires areas == [Area(0, 0x100000), Area(0x100000, 0), Area(0x100000, 0)] && k < 256
    ensures AreaOf(areas, k) == 0
    ensures Enabled(areas, 256, EMPTY, Event.Online(k, 1)) && Next(EMPTY, Event.Online(k, 1)).free == {k}
    ensures AreaFree(areas, Next(EMPTY, Event.Online(k, 1)), 0) == {k}
    ensures HasRun(areas, Next(EMPTY, Event.Online(k, 1)), 0, 0)
  {
    assert AreaOf(areas, k) == 0;
    assert InRun(k, 1, k);
    assert Run(k, 1) == {k};
    assert Shr(k, 0) == k && Holds(Block(k, 0), k);
    assert Frames(Block(k, 0)) == {k};
    assert Fits(Block(k, 0), AreaFree(areas, Next(EMPTY, Event.Online(k, 1)), 0));
  }

  lemma {:induction false} FirstRank(lists: seq<seq<nat>>, rank: nat) returns (r: nat)
    requires rank <= |lists|
    ensures rank <= r <= |lists| && (r < |lists| ==> lists[r] != [])
    ensures forall i :: rank <= i < r ==> lists[i] == []
    ensures FirstListed(lists, rank) == if r < |lists| then Some(lists[r][0]) else None
    decreases |lists| - rank
  {
    r := rank;
    if rank < |lists| && lists[rank] == [] { r := FirstRank(lists, rank + 1); }
  }

  lemma ListsRemove(areas: seq<Area>, fpage: Lists, listed: set<Block>, b: Block, a: nat)
    requires ListsMatch(areas, fpage, listed) && b.rank < RANK_NUM && a == AreaOf(areas, b.head) < AREA_NUM
    ensures ListsMatch(areas, SetList(fpage, a, b.rank, Without(fpage[a][b.rank], b.head)), listed - {b})
  {
    var l' := Without(fpage[a][b.rank], b.head);
    var fpage' := SetList(fpage, a, b.rank, l');
    forall i, r, k: nat | 0 <= i < AREA_NUM && 0 <= r < RANK_NUM
      ensures k in fpage'[i][r] <==> Block(k, r) in Local(areas, listed - {b}, i)
    {
      assert k in fpage[i][r] <==> Block(k, r) in Local(areas, listed, i);
      if i == a && r == b.rank {
        assert k in l' <==> k in fpage[a][b.rank] && k != b.head;
      } else {
        assert Block(k, r) in Local(areas, listed, i) ==> Block(k, r) != b;
      }
    }
  }

  lemma ListsAdd(areas: seq<Area>, fpage: Lists, listed: set<Block>, b: Block, a: nat)
    requires ListsMatch(areas, fpage, listed) && b.rank < RANK_NUM && a == AreaOf(areas, b.head) < AREA_NUM
    requires b !in listed
    ensures ListsMatch(areas, SetList(fpage, a, b.rank, [b.head] + fpage[a][b.rank]), listed + {b})
  {
    var l, l' := fpage[a][b.rank], [b.head] + fpage[a][b.rank];
    assert b.head in l <==> b in Local(areas, listed, a) by { assert b == Block(b.head, b.rank); }
    var fpage' := SetList(fpage, a, b.rank, l');
    forall i, r, k: nat | 0 <= i < AREA_NUM && 0 <= r < RANK_NUM
      ensures k in fpage'[i][r] <==> Block(k, r) in Local(areas, listed + {b}, i)
    {
      assert k in fpage[i][r] <==> Block(k, r) in Local(areas, listed, i);
      if i == a && r == b.rank {
        assert k in l' <==> k == b.head || k in l;
      } else {
        assert Block(k, r) in Local(areas, listed + {b}, i) ==> Block(k, r) != b;
      }
    }
  }

  class PageAllocator {
    const areas: seq<Area>
    const nPages: nat
    // struct page: buddy_rank, refcount, and whether the freepage node is on a list
    const rank: array<nat>
    const refcount: array<nat>
    const linked: array<bool>
    // fpage_list of each area, by rank
    var fpage: Lists

    ghost var listed: set<Block>
    ghost var live: set<Block>
    // the calls made so far
    ghost var history: seq<Event>

    ghost predicate PagesMatch()
      reads this, rank, linked
    {
      && rank.Length == nPages && linked.Length == nPages && refcount.Length == nPages
      && rank != refcount
      && (forall b :: b in listed ==> b.head < nPages && linked[b.head] && rank[b.head] == b.rank)
      && (forall b :: b in live ==> b.head < nPages && !linked[b.head] && rank[b.head] == b.rank)
      && (forall i :: 0 <= i < nPages && linked[i] ==> Block(i, rank[i]) in listed)
    }

    /** The arrays, the lists and the block sets agree; true at every step inside a call. */
    ghost predicate Consistent()
      reads this, rank, linked
    {
      PagesMatch() && ListsMatch(areas, fpage, listed) && Owned(areas, nPages, listed, live)
    }

    /** Between calls, ownership is moreover what the calls made so far add up to. */
    ghost predicate Valid()
      reads this, rank, linked
    {
      Consistent() && Legal(areas, nPages, history) && After(history) == Ownership()
    }

    /** One more call that was allowed and had its effect. */
    ghost predicate Recorded(before: seq<Event>, s: State, e: Event)
      reads this, rank, linked
    {
      Consistent() && history == before && Legal(areas, nPages, before) && After(before) == s
      && Enabled(areas, nPages, s, e) && Ownership() == Next(s, e)
    }

    ghost method Record(before: seq<Event>, s: State, e: Event)
      requires Recorded(before, s, e)
      modifies this`history
      ensures Valid() && history == before + [e]
    {
      LegalSnoc(areas, nPages, before, e);
      history := before + [e];
    }

    ghost function Ownership(): State
      reads this
    {
      State(FramesOf(listed), live)
    }

    /** buddy_init and mmarea_init: every page out of list, every list empty. Addresses are 32-bit words. */
    constructor (areas: seq<Area>, nPages: nat)
      requires |areas| == AREA_NUM && nPages < 0x10_0000
      requires forall a :: a in areas ==> a.begin + a.size < 0x1_0000_0000
      ensures Valid() && Ownership() == EMPTY && history == [] && fresh(rank) && fresh(linked) && fresh(refcount)
      ensures this.areas == areas && this.nPages == nPages
    {
      this.areas := areas;
      this.nPages := nPages;
      rank := new nat[nPages](_ => 0);
      refcount := new nat[nPages](_ => 0);
      linked := new bool[nPages](_ => false);
      fpage := seq(AREA_NUM, _ => seq(RANK_NUM, _ => []));
      listed := {};
      live := {};
      history := [];
    }

    /** get_pagearea: the failing ASSERT is the dead end after the loop. */
    method GetPageArea(page: nat) returns (a: nat)
      requires AreaOf(areas, page) < |areas|
      ensures a == AreaOf(areas, page)
    {
      a := 0;
      while a < |areas|
        invariant 0 <= a <= |areas| && AreaOf(areas, page) == AreaFrom(areas, page, a)
      {
        if InArea(areas[a], page) { return; }
        a := a + 1;
      }
      assert false;
    }

    /** list_remove on the page's freepage node. */
    method Unlink(page: nat, area: nat)
      requires Consistent() && page < nPages && linked[page] && area == AreaOf(areas, page)
      modifies this`fpage, this`listed, this`live, linked
      ensures Consistent()
      ensures rank[page] == old(rank[page]) && Block(page, rank[page]) in old(listed)
      ensures listed == old(listed) - {Block(page, rank[page])} && live == old(live) + {Block(page, rank[page])}
      ensures FramesOf(listed) == old(FramesOf(listed)) - Frames(Block(page, rank[page]))
      ensures Frames(Block(page, rank[page])) <= old(FramesOf(listed))
    {
      ghost var b := Block(page, rank[page]);
      var r := rank[page];
      assert b in listed + live && InOneArea(areas, nPages, b);
      TakeKeepsOwned(areas, nPages, listed, live, b);
      ListsRemove(areas, fpage, listed, b, area);
      fpage := SetList(fpage, area, r, Without(fpage[area][r], page));
      linked[page] := false;
      listed, live := listed - {b}, live + {b};
    }

    /** list_add_head of the page's freepage node on its area's list. */
    method Link(page: nat, area: nat)
      requires Consistent() && page < nPages && Block(page, rank[page]) in live && area == AreaOf(areas, page)
      requires rank[page] + 1 < RANK_NUM ==>
        Buddy(Block(page, rank[page])) !in Local(areas, listed, area)
      modifies this`fpage, this`listed, this`live, linked
      ensures Consistent() && rank[page] == old(rank[page])
      ensures listed == old(listed) + {Block(page, rank[page])} && live == old(live) - {Block(page, rank[page])}
      ensures FramesOf(listed) == old(FramesOf(listed)) + Frames(Block(page, rank[page]))
      ensures Frames(Block(page, rank[page])) !! old(FramesOf(listed))
    {
      ghost var b := Block(page, rank[page]);
      var r := rank[page];
      assert b in listed + live && InOneArea(areas, nPages, b);
      GiveKeepsOwned(areas, nPages, listed, live, b);
      ListsAdd(areas, fpage, listed, b, area);
      fpage := SetList(fpage, area, r, [page] + fpage[area][r]);
      linked[page] := true;
      listed, live := listed + {b}, live - {b};
    }

    /** One round of the merge loop of page_free: absorb the listed buddy and raise the lower page's rank. */
    method Merge(page: nat, buddy: nat, area: nat) returns (merged: nat)
      requires Consistent() && page < nPages && Block(page, rank[page]) in live && rank[page] + 1 < RANK_NUM
      requires buddy == Buddy(Block(page, rank[page])).head < nPages
      requires linked[buddy] && rank[buddy] == rank[page]
      requires area == AreaOf(areas, page) == AreaOf(areas, buddy)
      modifies this`fpage, this`listed, this`live, rank, linked
      ensures Consistent() && merged < nPages && AreaOf(areas, merged) == area
      ensures rank[merged] == old(rank[page]) + 1 && Block(merged, rank[merged]) in live
      ensures live - {Block(merged, rank[merged])} == old(live - {Block(page, rank[page])})
      ensures FramesOf(listed) + Frames(Block(merged, rank[merged]))
           == old(FramesOf(listed) + Frames(Block(page, rank[page])))
    {
      ghost var half := Block(page, rank[page]);
      assert half in listed + live;
      ParentFacts(half);
      Unlink(buddy, area);
      FuseKeepsOwned(areas, nPages, listed, live, half);
      assert half in listed + live && InOneArea(areas, nPages, half);
      merged := if page < buddy then page else buddy;
      assert Block(merged, half.rank + 1) == Parent(half) && Parent(half) !in live by {
        FusedIsNew(areas, nPages, listed, live, half);
      }
      rank[merged] := rank[merged] + 1;
      live := live - {half, Buddy(half)} + {Parent(half)};
    }

    /** page_free, as a call of its own: the block is free, and the call is on record. */
    method PageFree(addr: nat)
      requires Valid() && addr / PAGE_SIZE < nPages && refcount[addr / PAGE_SIZE] == 0
      requires Block(addr / PAGE_SIZE, rank[addr / PAGE_SIZE]) in live
      modifies this, rank, linked
      ensures var e := Event.Free(old(Block(addr / PAGE_SIZE, rank[addr / PAGE_SIZE])));
        Valid() && Ownership() == Next(old(Ownership()), e) && history == old(history) + [e]
    {
      ghost var s, e := Ownership(), Event.Free(Block(addr / PAGE_SIZE, rank[addr / PAGE_SIZE]));
      Release(addr);
      Record(old(history), s, e);
    }

    /** The statements of page_free: coalesce with free buddies of the same rank and area, then list the result. */
    method Release(addr: nat)
      requires Consistent() && addr / PAGE_SIZE < nPages && refcount[addr / PAGE_SIZE] == 0
      requires Block(addr / PAGE_SIZE, rank[addr / PAGE_SIZE]) in live
      modifies this`fpage, this`listed, this`live, rank, linked
      ensures Consistent()
      ensures var e := Event.Free(old(Block(addr / PAGE_SIZE, rank[addr / PAGE_SIZE])));
        Ownership() == Next(old(Ownership()), e)
    {
      var page := addr / PAGE_SIZE;
      ghost var b := Block(page, rank[page]);
      assert b in listed + live;
      var area := GetPageArea(page);
      while rank[page] < RANK_NUM - 1
        invariant Consistent() && 0 <= page < nPages && Block(page, rank[page]) in live && AreaOf(areas, page) == area
        invariant live - {Block(page, rank[page])} == old(live) - {b}
        invariant FramesOf(listed) + Frames(Block(page, rank[page])) == old(FramesOf(listed)) + Frames(b)
        decreases RANK_NUM - rank[page]
      {
        var buddy := Xor(page, Pow2(rank[page]));
        if !(buddy < nPages && linked[buddy]) || rank[buddy] != rank[page] { break; }
        assert Block(buddy, rank[buddy]) in listed + live;
        var buddyArea := GetPageArea(buddy);
        if buddyArea != area { break; }
        page := Merge(page, buddy, area);
      }
      Link(page, area);
    }

    /** One round of the split loop of page_alloc: lower the page's rank and give its new buddy the same. */
    method Halve(page: nat) returns (buddy: nat)
      requires Consistent() && page < nPages && Block(page, rank[page]) in live && rank[page] > 0
      modifies this`live, rank
      ensures Consistent() && rank[page] == old(rank[page]) - 1
      ensures Block(buddy, rank[page]) == Buddy(Block(page, rank[page])) && buddy < nPages && rank[buddy] == rank[page]
      ensures live == old(live) - {old(Block(page, rank[page]))} + {Block(page, rank[page]), Block(buddy, rank[page])}
      ensures Block(buddy, rank[page]) != Block(page, rank[page])
      ensures Block(page, rank[page]) !in old(live) && Block(buddy, rank[page]) !in old(live)
      ensures old(Frames(Block(page, rank[page]))) == Frames(Block(page, rank[page])) + Frames(Block(buddy, rank[page]))
      ensures AreaOf(areas, buddy) == AreaOf(areas, page)
    {
      ghost var b := Block(page, rank[page]);
      ghost var l := SplitApart(areas, nPages, listed, live, b);
      ghost var live' := live - {b} + {l, Buddy(l)};
      assert Buddy(l) in listed + live' && InOneArea(areas, nPages, Buddy(l));
      rank[page] := rank[page] - 1;
      buddy := Xor(page, Pow2(rank[page]));
      rank[buddy] := rank[page];
      live := live';
    }

    /** The whole round: the upper half goes onto its list. */
    method SplitOnce(page: nat, area: nat)
      requires Consistent() && page < nPages && Block(page, rank[page]) in live && rank[page] > 0
      requires area == AreaOf(areas, page)
      requires FramesOf(listed) !! Frames(Block(page, rank[page]))
      modifies this`fpage, this`listed, this`live, rank, linked
      ensures Consistent() && rank[page] == old(rank[page]) - 1 && Block(page, rank[page]) in live
      ensures live - {Block(page, rank[page])} == old(live - {Block(page, rank[page])})
      ensures FramesOf(listed) + Frames(Block(page, rank[page]))
           == old(FramesOf(listed) + Frames(Block(page, rank[page])))
      ensures FramesOf(listed) !! Frames(Block(page, rank[page]))
    {
      assert Block(page, rank[page]) in listed + live;
      var buddy := Halve(page);
      ghost var l := Block(page, rank[page]);
      assert l in listed + live && l !in listed;
      ParentFacts(l);
      Link(buddy, area);
    }

    /** What the address returned stands for: nothing, or the aligned bytes of the one new live block. */
    ghost predicate Granted(page: Option<nat>, addr: nat, want: nat, before: set<Block>)
      reads this
    {
      if page.None? then addr == 0 && live == before
      else
        var b := Block(page.value, want);
        && live == before + {b} && b !in before
        && addr % (Pow2(want) * PAGE_SIZE) == 0 && Spans(addr, Pow2(want) * PAGE_SIZE, Frames(b))
    }

    /** page_alloc: take the first listed block of sufficient rank and give back the upper halves. */
    method PageAlloc(want: nat, area: nat) returns (addr: nat)
      requires Valid() && want < RANK_NUM && area < AREA_NUM
      modifies this, rank, linked
      ensures Valid()
      ensures var page := FirstListed(old(fpage)[area], want);
        && addr == Address(page)
        && Enabled(areas, nPages, old(Ownership()), Event.Alloc(area, want, page))
        && Ownership() == Next(old(Ownership()), Event.Alloc(area, want, page))
        && history == old(history) + [Event.Alloc(area, want, page)]
      ensures Granted(FirstListed(old(fpage)[area], want), addr, want, old(live))
    {
      ghost var s, e := Ownership(), Event.Alloc(area, want, FirstListed(fpage[area], want));
      RunIffListed(areas, nPages, listed, live, area, want);
      assert forall b :: b in listed ==> b in listed + live;
      NoneListed(areas, fpage, listed, area, want);
      if areas[area].size == 0 {
        assert forall b :: b in Local(areas, listed, area) ==> InArea(areas[area], b.head);
        Record(old(history), s, e);
        return 0;
      }
      var i := want;
      while i < RANK_NUM && fpage[area][i] == []
        invariant want <= i <= RANK_NUM
        invariant FirstListed(fpage[area], want) == FirstListed(fpage[area], i)
      {
        i := i + 1;
      }
      if i == RANK_NUM {
        Record(old(history), s, e);
        return 0;
      }
      var page := fpage[area][i][0];
      assert page in fpage[area][i] && Block(page, i) in Local(areas, listed, area);
      TakePage(page, area, want);
      Record(old(history), s, e);
      assert Block(page, want) in listed + live;
      BlockBytes(Block(page, want));
      addr := page * PAGE_SIZE;
    }

    /** The second half of page_alloc: unlink the page found and split it down to the wanted rank. */
    method TakePage(page: nat, area: nat, want: nat)
      requires Consistent() && page < nPages && linked[page] && want <= rank[page] && area == AreaOf(areas, page)
      modifies this`fpage, this`listed, this`live, rank, linked
      ensures Consistent()
      ensures Enabled(areas, nPages, old(Ownership()), Event.Alloc(area, want, Some(page)))
      ensures Ownership() == Next(old(Ownership()), Event.Alloc(area, want, Some(page)))
    {
      ghost var s0, whole := Ownership(), Block(page, rank[page]);
      assert whole in listed + live;
      Unlink(page, area);
      while rank[page] > want
        invariant Consistent() && page < nPages && want <= rank[page] <= whole.rank
        invariant Block(page, rank[page]) in live && live - {Block(page, rank[page])} == old(live)
        invariant FramesOf(listed) + Frames(Block(page, rank[page])) == s0.free
        invariant FramesOf(listed) !! Frames(Block(page, rank[page]))
        decreases rank[page]
      {
        SplitOnce(page, area);
      }
      ghost var b := Block(page, want);
      assert b in listed + live && b.head in Frames(b);
      assert Frames(b) <= AreaFree(areas, s0, area);
    }

    /** sysram_online: hand every page of the range to page_free as a block of rank 0. */
    method SysramOnline(begin: nat, size: nat)
      requires Valid() && begin % PAGE_SIZE == 0 && size % PAGE_SIZE == 0
      requires Enabled(areas, nPages, Ownership(), Event.Online(begin / PAGE_SIZE, size / PAGE_SIZE))
      modifies this, rank, linked, refcount
      ensures var e := Event.Online(begin / PAGE_SIZE, size / PAGE_SIZE);
        Valid() && Ownership() == Next(old(Ownership()), e) && history == old(history) + [e]
    {
      var pa := begin;
      ghost var first, s0 := begin / PAGE_SIZE, Ownership();
      ghost var done := 0;
      while pa < begin + size
        invariant pa == begin + done * PAGE_SIZE && 0 <= done <= size / PAGE_SIZE
        invariant Consistent() && Ownership() == Next(s0, Event.Online(first, done)) && history == old(history)
      {
        assert pa / PAGE_SIZE == first + done && InRun(first, size / PAGE_SIZE, first + done);
        OnlinePage(pa);
        done := done + 1;
        pa := pa + PAGE_SIZE;
        RunGrows(first, done);
      }
      Record(old(history), s0, Event.Online(first, size / PAGE_SIZE));
    }

    /** One round of sysram_online: the page becomes a block of rank 0, which is released. */
    method OnlinePage(pa: nat)
      requires Consistent() && pa / PAGE_SIZE < nPages && AreaOf(areas, pa / PAGE_SIZE) < |areas|
      requires pa / PAGE_SIZE !in OnlineFrames(Ownership())
      modifies this`fpage, this`listed, this`live, rank, linked, refcount
      ensures Consistent() && Ownership() == State(old(Ownership()).free + {pa / PAGE_SIZE}, old(live))
    {
      var page := pa / PAGE_SIZE;
      ghost var b := Block(page, 0);
      OnlineFrame(areas, nPages, listed, live, page);
      rank[page] := 0;
      refcount[page] := 0;
      live := live + {b};
      Release(pa);
    }

    // ---------- What callers can rely on ----------

    /** page_alloc(get_pagerank(size), area), as the upload server calls it. */
    method AllocBytes(size: nat, area: nat) returns (addr: nat, ghost got: Option<Block>)
      requires Valid() && size <= 0x400_0000 && area < AREA_NUM && WholePages(areas[area])
      modifies this, rank, linked
      ensures Valid()
      ensures got.None? ==> addr == 0 && live == old(live)
      ensures got.Some? ==>
        got.value in live && live - {got.value} == old(live) && OwnBytes(addr, size, area, got.value)
    {
      var want := GetPageRank(size);
      RankFits(size, want);
      ghost var s, page := Ownership(), FirstListed(fpage[area], want);
      addr := PageAlloc(want, area);
      got := if page.None? then None else Some(Block(page.value, want));
      if page.Some? {
        assert got.value in listed + live;
        AllBytesOwn(s, addr, size, area, got.value);
      }
    }

    /** Every one of the bytes is in the area and in the block's frames, and in no other live block's. */
    ghost predicate OwnBytes(addr: nat, size: nat, area: nat, b: Block)
      reads this
      requires area < |areas|
    {
      forall x: nat :: addr <= x < addr + size ==>
        && FrameOf(x) in Frames(b) && areas[area].begin <= x < areas[area].begin + areas[area].size
        && forall c :: c in live && c != b ==> FrameOf(x) !in Frames(c)
    }

    lemma AllBytesOwn(s: State, addr: nat, size: nat, area: nat, b: Block)
      requires Consistent() && area < |areas| && WholePages(areas[area]) && b in live
      requires Frames(b) <= AreaFree(areas, s, area)
      requires Spans(addr, Pow2(b.rank) * PAGE_SIZE, Frames(b)) && size <= Pow2(b.rank) * PAGE_SIZE
      ensures OwnBytes(addr, size, area, b)
    {
      forall x: nat | addr <= x < addr + size
        ensures FrameOf(x) in Frames(b) && areas[area].begin <= x < areas[area].begin + areas[area].size
        ensures forall c :: c in live && c != b ==> FrameOf(x) !in Frames(c)
      {
        assert FrameOf(x) in Frames(b);
        InWholeArea(areas[area], x);
        assert forall c :: c in live && c != b ==> c in listed + live && b in listed + live;
      }
    }

    /** The free lists of an area are the maximal aligned blocks of its free frames, filed by rank. */
    lemma ListsAreMaximal(a: nat, r: nat, k: nat)
      requires Valid() && a < AREA_NUM && r < RANK_NUM
      ensures k in fpage[a][r] <==> Maximal(Block(k, r), AreaFree(areas, Ownership(), a))
    {
      ListedIsMaximal(areas, nPages, listed, live, a);
    }

    /** An allocation splits no larger block than it must: it is cut from a maximal free block whose rank is the
        least of those that suffice. */
    lemma BestFit(a: nat, want: nat) returns (r: nat)
      requires Valid() && a < AREA_NUM && want < RANK_NUM && FirstListed(fpage[a], want).Some?
      ensures want <= r < RANK_NUM
      ensures Maximal(Block(FirstListed(fpage[a], want).value, r), AreaFree(areas, Ownership(), a))
      ensures forall b :: Maximal(b, AreaFree(areas, Ownership(), a)) && b.rank >= want ==> b.rank >= r
    {
      r := FirstRank(fpage[a], want);
      var k := fpage[a][r][0];
      assert k in fpage[a][r];
      ListsAreMaximal(a, r, k);
      forall b | Maximal(b, AreaFree(areas, Ownership(), a)) && b.rank >= want ensures b.rank >= r {
        ListsAreMaximal(a, b.rank, b.head);
        assert b == Block(b.head, b.rank) && b.head in fpage[a][b.rank];
      }
    }

    /** While frame 0 is not free in the area, NULL means exactly that no aligned run of the size is free. */
    lemma NullMeansNoRun(a: nat, want: nat)
      requires Consistent() && a < AREA_NUM && want < RANK_NUM
      requires 0 !in AreaFree(areas, Ownership(), a)
      ensures Address(FirstListed(fpage[a], want)) == 0 <==> !HasRun(areas, Ownership(), a, want)
    {
      NullIsHonest(areas, nPages, fpage, listed, live, a, want);
    }

    /** At every moment between calls: live blocks are aligned, disjoint, inside one area and apart from the
        free frames, and both together are exactly the frames brought online. */
    lemma EveryFrameAccounted()
      requires Valid()
      ensures Safe(areas, nPages, Ownership()) && OnlineFrames(Ownership()) == Onlined(history)
    {
      RunSafe(areas, nPages, history);
    }

    /** Releasing what was just allocated restores the listed blocks exactly. */
    method AllocThenFree(want: nat, area: nat)
      requires Valid() && want < RANK_NUM && area < AREA_NUM
      requires HasRun(areas, Ownership(), area, want)
      requires forall k :: 0 <= k < nPages ==> refcount[k] == 0
      modifies this, rank, linked
      ensures Valid() && listed == old(listed) && live == old(live)
    {
      ghost var listed0, live0, s0 := listed, live, Ownership();
      ghost var b := AllocTarget(want, area);
      var addr := PageAlloc(want, area);
      assert b in live && addr / PAGE_SIZE == b.head;
      PageFree(addr);
      assert Ownership() == s0;
      SameFreeSameListed(listed0, live0);
    }

    /** The block an allocation will hand out is free now. */
    lemma AllocTarget(want: nat, area: nat) returns (b: Block)
      requires Valid() && want < RANK_NUM && area < AREA_NUM && HasRun(areas, Ownership(), area, want)
      ensures FirstListed(fpage[area], want) == Some(b.head) && b.rank == want && b !in live
    {
      RunIffListed(areas, nPages, listed, live, area, want);
      assert forall c :: c in listed ==> c in listed + live;
      NoneListed(areas, fpage, listed, area, want);
      var r := FirstRank(fpage[area], want);
      b := Block(fpage[area][r][0], want);
      assert b.head in fpage[area][r];
      HeadIn(Block(b.head, r));
      LiveApart(b);
    }

    lemma LiveApart(b: Block)
      requires Valid() && b.head in FramesOf(listed)
      ensures b !in live
    {
      var c :| c in listed && b.head in Frames(c);
      assert c in listed + live;
      HeadIn(b);
      assert b in live ==> b in listed + live && b != c;
    }

    lemma SameFreeSameListed(listed': set<Block>, live': set<Block>)
      requires Valid() && Owned(areas, nPages, listed', live')
      requires FramesOf(listed') == FramesOf(listed) && live' == live
      ensures listed' == listed
    {
      forall b ensures b in listed <==> b in listed' {
        var a := AreaOf(areas, b.head);
        ListedIsMaximal(areas, nPages, listed, live, a);
        ListedIsMaximal(areas, nPages, listed', live', a);
        assert b in listed <==> b in Local(areas, listed, a);
        assert b in listed' <==> b in Local(areas, listed', a);
      }
    }
  }

  /** Two allocators that reached the same live blocks over the same onlined frames, by whatever calls,
      have the same pages on each of their free lists. */
  lemma SameListsWhateverHistory(p: PageAllocator, q: PageAllocator)
    requires p.Valid() && q.Valid() && p.areas == q.areas && p.nPages == q.nPages
    requires Onlined(p.history) == Onlined(q.history) && p.live == q.live
    ensures forall a, r, k :: 0 <= a < AREA_NUM && 0 <= r < RANK_NUM ==>
              (k in p.fpage[a][r] <==> k in q.fpage[a][r])
  {
    HistoryIndependent(p.areas, p.nPages, p.history, q.history, p.listed, q.listed);
    forall a, r, k: nat | 0 <= a < AREA_NUM && 0 <= r < RANK_NUM
      ensures k in p.fpage[a][r] <==> k in q.fpage[a][r]
    {
      assert k in p.fpage[a][r] <==> Block(k, r) in Local(p.areas, p.listed, a);
      assert k in q.fpage[a][r] <==> Block(k, r) in Local(p.areas, p.listed, a);
    }
  }

  lemma OnlyFrame(areas: seq<Area>, s: State, page: Option<nat>, k: nat)
    requires |areas| == AREA_NUM && AreaFree(areas, s, 0) == {k} && HasRun(areas, s, 0, 0)
    requires Enabled(areas, 256, s, Event.Alloc(0, 0, page))
    ensures page == Some(k) && Address(page) == 0x1000 * k
  {
    if page.Some? { HeadIn(Block(page.value, 0)); }
  }

  /** An allocator with one frame of the low area online hands out that frame, at its address. */
  method OneFrame(k: nat) returns (addr: nat, ghost p: PageAllocator)
    requires k < 256
    ensures addr == 0x1000 * k && p.Valid() && p.live == {Block(k, 0)}
    ensures p.history == [Event.Online(k, 1), Event.Alloc(0, 0, Some(k))]
  {
    var q := new PageAllocator([Area(0, 0x100000), Area(0x100000, 0), Area(0x100000, 0)], 256);
    OneFrameOnline(q.areas, k);
    assert 0x1000 * k / PAGE_SIZE == k;
    q.SysramOnline(0x1000 * k, 0x1000);
    ghost var page := FirstListed(q.fpage[0], 0);
    ghost var s := q.Ownership();
    addr := q.PageAlloc(0, 0);
    OnlyFrame(q.areas, s, page, k);
    assert q.live == {Block(k, 0)};
    p := q;
  }

  /** With frame 0 alone online, page_alloc hands that frame out, and the address is NULL. */
  method FrameZeroLooksLikeFailure() returns (addr: nat, ghost p: PageAllocator)
    ensures addr == 0 && p.Valid() && p.live == {Block(0, 0)}
    ensures p.history == [Event.Online(0, 1), Event.Alloc(0, 0, Some(0))]
  {
    addr, p := OneFrame(0);
  }
}
