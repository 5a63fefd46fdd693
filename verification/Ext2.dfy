/** ext2_readfile: direct, indirect and double-indirect blocks into memory. */
module Ext2 {
  import opened Bits
  import opened Memory

  const WORD: nat := 0x1_0000_0000
  const SECTOR: nat := 1024
  const PAGE_SIZE: nat := 4096
  const IND_BLOCK: nat := 12
  const DIND_BLOCK: nat := 13
  const N_BLOCKS: nat := 15

  /** The device, sector by sector, and the file system's block size. */
  datatype Disk = Disk(sector: nat -> seq<u8>, blkSize: nat)

  ghost predicate ValidDisk(d: Disk) {
    (d.blkSize == 1024 || d.blkSize == 2048 || d.blkSize == 4096) && forall s :: |d.sector(s)| == SECTOR
  }

  /** Indices per index block. */
  function PerBlock(d: Disk): nat {
    d.blkSize / 4
  }

  /** Indices reached through an index block of index blocks. */
  function Square(d: Disk): nat {
    if d.blkSize == 1024 then 0x1_0000 else if d.blkSize == 2048 then 0x4_0000 else 0x10_0000
  }

  lemma SquareIs(d: Disk)
    requires ValidDisk(d)
    ensures Square(d) == PerBlock(d) * PerBlock(d)
  {
  }

  function Sectors(d: Disk, first: nat, n: nat): (s: seq<u8>)
    requires ValidDisk(d)
    ensures |s| == n * SECTOR
  {
    if n == 0 then [] else Sectors(d, first, n - 1) + d.sector(first + n - 1)
  }

  /** File system block b. */
  function BlockOf(d: Disk, b: nat): (s: seq<u8>)
    requires ValidDisk(d)
    ensures |s| == d.blkSize
  {
    Sectors(d, b * (d.blkSize / SECTOR), d.blkSize / SECTOR)
  }

  /** Little-endian 32-bit word k of a buffer. */
  function WordAt(s: seq<u8>, k: nat): nat
    requires 4 * k + 4 <= |s|
  {
    var b0: nat, b1: nat, b2: nat, b3: nat := s[4 * k], s[4 * k + 1], s[4 * k + 2], s[4 * k + 3];
    b0 + 0x100 * b1 + 0x1_0000 * b2 + 0x100_0000 * b3
  }

  /** Entry k of the index block b. */
  function Entry(d: Disk, b: nat, k: nat): nat
    requires ValidDisk(d) && k < PerBlock(d)
  {
    WordAt(BlockOf(d, b), k)
  }

  // ---------- The flat map ----------

  type Inode = s: seq<nat> | |s| == N_BLOCKS witness seq(N_BLOCKS, _ => 0)

  /** The device block holding logical block n of a file. */
  function Lookup(d: Disk, iBlock: Inode, n: nat): nat
    requires ValidDisk(d) && n < IND_BLOCK + PerBlock(d) + Square(d)
  {
    var per := PerBlock(d);
    if n < IND_BLOCK then iBlock[n]
    else if n - IND_BLOCK < per then Entry(d, iBlock[IND_BLOCK], n - IND_BLOCK)
    else
      var m := n - IND_BLOCK - per;
      SquareIs(d); DivInside(m, per);
      Entry(d, Entry(d, iBlock[DIND_BLOCK], m / per), m % per)
  }

  lemma DivInside(m: nat, per: nat)
    requires per > 0 && m < per * per
    ensures m / per < per && m % per < per
  {
    var q := m / per;
    assert m == q * per + m % per;
    if per < q { MulLess(per, q, per); }
  }

  /** The first k blocks of a list, one after the other. */
  function Bytes(d: Disk, blocks: seq<nat>, k: nat): seq<u8>
    requires ValidDisk(d) && k <= |blocks|
  {
    if k == 0 then [] else Bytes(d, blocks, k - 1) + BlockOf(d, blocks[k - 1])
  }

  lemma {:induction false} BytesLength(d: Disk, blocks: seq<nat>, k: nat)
    requires ValidDisk(d) && k <= |blocks|
    ensures |Bytes(d, blocks, k)| == k * d.blkSize
  {
    if k > 0 {
      BytesLength(d, blocks, k - 1);
      assert k * d.blkSize == (k - 1) * d.blkSize + d.blkSize;
    }
  }

  lemma {:induction false} BytesGrow(d: Disk, blocks: seq<nat>, j: nat, k: nat)
    requires ValidDisk(d) && j <= k <= |blocks|
    ensures |Bytes(d, blocks, j)| <= |Bytes(d, blocks, k)|
    decreases k
  {
    if j < k { BytesGrow(d, blocks, j, k - 1); }
  }

  /** A stretch of one list that agrees with another list. */
  lemma {:induction false} BytesShift(d: Disk, all: seq<nat>, base: nat, part: seq<nat>, r: nat)
    requires ValidDisk(d) && base + r <= |all| && r <= |part|
    requires forall j :: 0 <= j < r ==> all[base + j] == part[j]
    ensures Bytes(d, all, base + r) == Bytes(d, all, base) + Bytes(d, part, r)
  {
    if r > 0 {
      BytesShift(d, all, base, part, r - 1);
      assert all[base + (r - 1)] == part[r - 1];
    }
  }

  /** The code's 32-bit product of block number and block size does not wrap. */
  predicate Addressable(d: Disk, b: nat) {
    b * d.blkSize < WORD
  }

  lemma FirstSector(d: Disk, b: nat)
    requires ValidDisk(d) && Addressable(d, b)
    ensures b * d.blkSize % WORD / SECTOR == b * (d.blkSize / SECTOR)
  {
  }

  /** ext2_load_block */
  method LoadBlock(d: Disk, blockidx: nat, mem: array<u8>, addr: nat)
    requires ValidDisk(d) && Addressable(d, blockidx) && addr + d.blkSize <= mem.Length
    modifies mem
    ensures mem[..] == Overwrite(old(mem[..]), addr, BlockOf(d, blockidx))
  {
    var first, n := blockidx * d.blkSize % WORD / SECTOR, d.blkSize / SECTOR;
    FirstSector(d, blockidx);
    var data := Sectors(d, first, n);
    Memcpy(mem, addr, data, |data|);
    assert data[..|data|] == data;
  }

  /** The first entries of an index block. */
  ghost function Entries(d: Disk, b: nat, n: nat): (s: seq<nat>)
    requires ValidDisk(d) && n <= PerBlock(d)
    ensures |s| == n && forall k :: 0 <= k < n ==> s[k] == Entry(d, b, k)
  {
    seq(n, k requires 0 <= k < n => Entry(d, b, k))
  }

  lemma WordInPage(page: seq<u8>, block: seq<u8>, k: nat)
    requires |block| <= |page| && page[..|block|] == block && 4 * k + 4 <= |block|
    ensures WordAt(page, k) == WordAt(block, k)
  {
    assert forall j :: 0 <= j < |block| ==> page[j] == page[..|block|][j];
  }

  /** The range from `addr` holds the first k blocks of the list, the rest of memory is as before. */
  ghost predicate Loaded(d: Disk, ram: seq<u8>, before: seq<u8>, addr: nat, all: seq<nat>, k: nat) {
    && ValidDisk(d) && k <= |all| && addr + |Bytes(d, all, k)| <= |before|
    && ram == Overwrite(before, addr, Bytes(d, all, k))
  }

  /** One more block of the list, at the address the code computes. */
  method LoadNext(d: Disk, b: nat, mem: array<u8>, addr: nat,
                  ghost before: seq<u8>, ghost all: seq<nat>, ghost k: nat, to: nat)
    requires Loaded(d, mem[..], before, addr, all, k) && k < |all| && b == all[k] && Addressable(d, b)
    requires addr + |Bytes(d, all, |all|)| <= mem.Length && to == addr + k * d.blkSize
    modifies mem
    ensures Loaded(d, mem[..], before, addr, all, k + 1)
  {
    ghost var x, y := Bytes(d, all, k), BlockOf(d, b);
    BytesLength(d, all, k);
    BytesGrow(d, all, k + 1, |all|);
    LoadBlock(d, b, mem, to);
    OverwriteTwice(before, addr, x, y, x + y);
  }

  /** The index block in its page: entry k, with the rest of the page whatever it was. */
  method FetchEntry(d: Disk, blkidx: nat, page: array<u8>, k: nat) returns (b: nat)
    requires ValidDisk(d) && page.Length == PAGE_SIZE && k < PerBlock(d)
    requires page[..d.blkSize] == BlockOf(d, blkidx)
    ensures b == Entry(d, blkidx, k)
  {
    b := WordAt(page[..], k);
    WordInPage(page[..], BlockOf(d, blkidx), k);
  }

  /** Load the index block into a fresh page. */
  method FetchIndex(d: Disk, blkidx: nat) returns (page: array<u8>)
    requires ValidDisk(d) && Addressable(d, blkidx)
    ensures fresh(page) && page.Length == PAGE_SIZE && page[..d.blkSize] == BlockOf(d, blkidx)
  {
    page := new u8[PAGE_SIZE];
    LoadBlock(d, blkidx, page, 0);
    assert page[..d.blkSize] == page[..][..d.blkSize];
  }

  function Least(a: nat, b: nat): nat {
    if a > b then b else a
  }

  /** Whether the addresses the code forms for these blocks are exact. */
  ghost predicate AllAddressable(d: Disk, blocks: seq<nat>) {
    forall k :: 0 <= k < |blocks| ==> Addressable(d, blocks[k])
  }

  /** ext2_readfile_ind: load at most one index block's worth of blocks, and report how many. */
  method ReadfileInd(d: Disk, blkidx: nat, count: nat, mem: array<u8>, addr: nat) returns (ret: nat)
    requires ValidDisk(d) && Addressable(d, blkidx)
    requires AllAddressable(d, Entries(d, blkidx, Least(count, PerBlock(d))))
    requires addr + Least(count, PerBlock(d)) * d.blkSize <= mem.Length
    modifies mem
    ensures ret == Least(count, PerBlock(d))
    ensures Loaded(d, mem[..], old(mem[..]), addr, Entries(d, blkidx, ret), ret)
  {
    ret := if count > PerBlock(d) then PerBlock(d) else count;
    ghost var before, all := mem[..], Entries(d, blkidx, ret);
    BytesLength(d, all, ret);
    OverwriteNothing(before, addr);
    IndLoop(d, blkidx, ret, mem, addr, before, all);
  }

  /** The index page and the loop of ext2_readfile_ind. */
  method IndLoop(d: Disk, blkidx: nat, ret: nat, mem: array<u8>, addr: nat, ghost before: seq<u8>, ghost all: seq<nat>)
    requires ValidDisk(d) && Addressable(d, blkidx) && ret <= PerBlock(d)
    requires all == Entries(d, blkidx, ret) && AllAddressable(d, all)
    requires addr + |Bytes(d, all, |all|)| <= mem.Length && Loaded(d, mem[..], before, addr, all, 0)
    modifies mem
    ensures Loaded(d, mem[..], before, addr, all, ret)
  {
    var blkidxarray := FetchIndex(d, blkidx);
    var k := 0;
    while k < ret
      invariant 0 <= k <= ret && blkidxarray[..d.blkSize] == BlockOf(d, blkidx)
      invariant Loaded(d, mem[..], before, addr, all, k)
    {
      var b := FetchEntry(d, blkidx, blkidxarray, k);
      LoadNext(d, b, mem, addr, before, all, k, addr + k * d.blkSize);
      k := k + 1;
    }
  }

  // ---------- Double indirection ----------

  /** Logical block m of a double-indirect tree. */
  function DoubleEntry(d: Disk, b: nat, m: nat): nat
    requires ValidDisk(d) && m < Square(d)
  {
    SquareIs(d);
    DivInside(m, PerBlock(d));
    Entry(d, Entry(d, b, m / PerBlock(d)), m % PerBlock(d))
  }

  ghost function DoubleEntries(d: Disk, b: nat, n: nat): (s: seq<nat>)
    requires ValidDisk(d) && n <= Square(d)
    ensures |s| == n && forall m :: 0 <= m < n ==> s[m] == DoubleEntry(d, b, m)
  {
    seq(n, m requires 0 <= m < n => DoubleEntry(d, b, m))
  }

  /** Where the entries of the idx-th index block start. */
  ghost function RowStart(idx: nat, per: nat): nat {
    if idx == 0 then 0 else RowStart(idx - 1, per) + per
  }

  lemma {:induction false} RowStartIs(idx: nat, per: nat)
    ensures RowStart(idx, per) == idx * per
  {
    if idx > 0 {
      RowStartIs(idx - 1, per);
      assert idx * per == (idx - 1) * per + per;
    }
  }

  lemma IndexInside(idx: nat, per: nat, ret: nat)
    requires per > 0 && idx * per < ret <= per * per
    ensures idx < per
  {
    if per < idx { MulLess(per, idx, per); }
  }

  /** The index blocks a double-indirect read of `count` blocks goes through. */
  ghost function IndexBlocks(d: Disk, b: nat, count: nat): (s: seq<nat>)
    requires ValidDisk(d)
  {
    Entries(d, b, Least((count + PerBlock(d) - 1) / PerBlock(d), PerBlock(d)))
  }

  /** The list, row by row: row i holds the entries of index block rows[i]. */
  ghost predicate Rows(d: Disk, all: seq<nat>, rows: seq<nat>)
    requires ValidDisk(d)
  {
    && |rows| <= PerBlock(d)
    && (forall i: nat :: RowStart(i, PerBlock(d)) < |all| ==> i < |rows|)
    && forall i: nat, j: nat :: i < |rows| && j < PerBlock(d) && RowStart(i, PerBlock(d)) + j < |all| ==>
         all[RowStart(i, PerBlock(d)) + j] == Entry(d, rows[i], j)
  }

  lemma DoubleEntriesRows(d: Disk, b: nat, count: nat)
    requires ValidDisk(d) && count <= Square(d)
    ensures Rows(d, DoubleEntries(d, b, count), IndexBlocks(d, b, count))
  {
    var per, all, rows := PerBlock(d), DoubleEntries(d, b, count), IndexBlocks(d, b, count);
    forall i: nat | RowStart(i, per) < count ensures i < |rows| {
      RowStartIs(i, per);
      SquareIs(d);
      IndexInside(i, per, count);
      RowCounted(i, per, count);
    }
    forall i: nat, j: nat | i < |rows| && j < per && RowStart(i, per) + j < count
      ensures all[RowStart(i, per) + j] == Entry(d, rows[i], j)
    {
      RowStartIs(i, per);
      DivModOf(i, j, per);
      assert all[i * per + j] == DoubleEntry(d, b, i * per + j);
    }
  }

  lemma RowCounted(i: nat, per: nat, count: nat)
    requires per > 0 && i * per < count
    ensures i < (count + per - 1) / per
  {
    var c := (count + per - 1) / per;
    assert count + per - 1 == c * per + (count + per - 1) % per;
    if c < i { MulLess(c, i, per); }
  }

  lemma DivModOf(q: nat, r: nat, per: nat)
    requires r < per
    ensures (q * per + r) / per == q && (q * per + r) % per == r
  {
    DivUnique(q * per + r, per, q);
  }

  lemma {:induction false} BytesPlus(d: Disk, all: seq<nat>, k: nat, n: nat)
    requires ValidDisk(d) && k + n <= |all|
    ensures |Bytes(d, all, k + n)| == |Bytes(d, all, k)| + n * d.blkSize
  {
    if n > 0 {
      BytesPlus(d, all, k, n - 1);
      assert n * d.blkSize == (n - 1) * d.blkSize + d.blkSize;
    }
  }

  /** One call of ext2_readfile_ind: the blocks of index block `b` are those of the list from position k on. */
  method LoadIndexed(d: Disk, b: nat, left: nat, mem: array<u8>, addr: nat, to: nat,
                     ghost before: seq<u8>, ghost all: seq<nat>, ghost k: nat) returns (n: nat)
    requires Addressable(d, b) && AllAddressable(d, all) && k + left == |all|
    requires Loaded(d, mem[..], before, addr, all, k) && to == addr + |Bytes(d, all, k)|
    requires addr + |Bytes(d, all, |all|)| <= mem.Length
    requires forall j :: 0 <= j < Least(left, PerBlock(d)) ==> all[k + j] == Entry(d, b, j)
    modifies mem
    ensures n == Least(left, PerBlock(d)) && Loaded(d, mem[..], before, addr, all, k + n)
    ensures |Bytes(d, all, k + n)| == |Bytes(d, all, k)| + n * d.blkSize
  {
    ghost var r := Least(left, PerBlock(d));
    BytesGrow(d, all, k + r, |all|);
    BytesPlus(d, all, k, r);
    ghost var ram := mem[..];
    n := ReadfileInd(d, b, left, mem, to);
    LoadedMore(d, mem[..], ram, before, addr, all, k, Entries(d, b, r), r);
  }

  /** A part loaded behind the blocks already there continues the list. */
  lemma LoadedMore(d: Disk, now: seq<u8>, ram: seq<u8>, before: seq<u8>, addr: nat,
                   all: seq<nat>, k: nat, part: seq<nat>, r: nat)
    requires Loaded(d, ram, before, addr, all, k) && Loaded(d, now, ram, addr + |Bytes(d, all, k)|, part, r)
    requires k + r <= |all| && forall j :: 0 <= j < r ==> all[k + j] == part[j]
    ensures Loaded(d, now, before, addr, all, k + r)
  {
    BytesShift(d, all, k, part, r);
    var x, y := Bytes(d, all, k), Bytes(d, part, r);
    OverwriteTwice(before, addr, x, y, x + y);
  }

  /** Where the loop of ext2_readfile_dind stands before the next index block. */
  ghost predicate AtRow(d: Disk, all: seq<nat>, left: nat, idx: nat, addr: nat, to: nat)
    requires ValidDisk(d)
  {
    left <= |all| && if left == 0 then idx <= PerBlock(d)
    else RowStart(idx, PerBlock(d)) + left == |all| && to == addr + |Bytes(d, all, |all| - left)|
  }

  lemma RowExists(d: Disk, all: seq<nat>, rows: seq<nat>, left: nat, idx: nat, addr: nat, to: nat)
    requires ValidDisk(d) && Rows(d, all, rows) && AtRow(d, all, left, idx, addr, to) && 0 < left
    ensures idx < |rows| <= PerBlock(d)
  {
  }

  /** One round of the loop of ext2_readfile_dind. */
  method DindRound(d: Disk, b: nat, left: nat, idx: nat, mem: array<u8>, addr: nat, to: nat,
                   rowBytes: nat, ghost before: seq<u8>, ghost all: seq<nat>, ghost rows: seq<nat>) returns (n: nat)
    requires ValidDisk(d) && rowBytes == PerBlock(d) * d.blkSize
    requires ValidDisk(d) && Rows(d, all, rows) && AllAddressable(d, rows) && AllAddressable(d, all)
    requires AtRow(d, all, left, idx, addr, to) && 0 < left && idx < |rows| && b == rows[idx]
    requires addr + |Bytes(d, all, |all|)| <= mem.Length && Loaded(d, mem[..], before, addr, all, |all| - left)
    modifies mem
    ensures n <= left && AtRow(d, all, left - n, idx + 1, addr, to + rowBytes) && 0 < n
    ensures Loaded(d, mem[..], before, addr, all, |all| - left + n)
  {
    n := LoadIndexed(d, b, left, mem, addr, to, before, all, |all| - left);
  }

  /** ext2_readfile_dind */
  method ReadfileDind(d: Disk, blkidx: nat, count: nat, mem: array<u8>, addr: nat) returns (ret: nat)
    requires ValidDisk(d) && Addressable(d, blkidx)
    requires AllAddressable(d, IndexBlocks(d, blkidx, Least(count, Square(d))))
    requires AllAddressable(d, DoubleEntries(d, blkidx, Least(count, Square(d))))
    requires addr + Least(count, Square(d)) * d.blkSize <= mem.Length
    modifies mem
    ensures ret == Least(count, Square(d))
    ensures Loaded(d, mem[..], old(mem[..]), addr, DoubleEntries(d, blkidx, ret), ret)
  {
    ret := Least(count, Square(d));
    ghost var before, all, rows := mem[..], DoubleEntries(d, blkidx, ret), IndexBlocks(d, blkidx, ret);
    BytesLength(d, all, ret);
    OverwriteNothing(before, addr);
    DoubleEntriesRows(d, blkidx, ret);
    DindLoop(d, blkidx, ret, mem, addr, before, all, rows);
  }

  /** The index page and the loop of ext2_readfile_dind. */
  method DindLoop(d: Disk, blkidx: nat, ret: nat, mem: array<u8>, addr: nat,
                  ghost before: seq<u8>, ghost all: seq<nat>, ghost rows: seq<nat>)
    requires ValidDisk(d) && Rows(d, all, rows) && ret == |all| && Addressable(d, blkidx)
    requires forall i :: 0 <= i < |rows| ==> rows[i] == Entry(d, blkidx, i)
    requires AllAddressable(d, rows) && AllAddressable(d, all)
    requires addr + |Bytes(d, all, |all|)| <= mem.Length && Loaded(d, mem[..], before, addr, all, 0)
    modifies mem
    ensures Loaded(d, mem[..], before, addr, all, |all|)
  {
    var blkidxarray := FetchIndex(d, blkidx);
    var left: nat, idx: nat, to: nat := ret, 0, addr;
    var rowBytes := PerBlock(d) * d.blkSize;
    while left > 0
      invariant blkidxarray[..d.blkSize] == BlockOf(d, blkidx) 
      invariant AtRow(d, all, left, idx, addr, to)
      invariant Loaded(d, mem[..], before, addr, all, |all| - left)
    {
      RowExists(d, all, rows, left, idx, addr, to);
      var b := FetchEntry(d, blkidx, blkidxarray, idx);
      var n := DindRound(d, b, left, idx, mem, addr, to, rowBytes, before, all, rows);
      left := left - n;
      to := to + rowBytes;
      idx := idx + 1;
    }
    assert idx <= PerBlock(d);
  }

  // ---------- ext2_readfile ----------

  /** The largest file the direct, indirect and double-indirect pointers reach, in blocks. */
  function Reach(d: Disk): nat {
    IND_BLOCK + PerBlock(d) + Square(d)
  }

  /** Logical blocks 0 .. n-1 in order, by the flat map. */
  ghost function FileBlocks(d: Disk, iBlock: Inode, n: nat): (s: seq<nat>)
    requires ValidDisk(d) && n <= Reach(d)
    ensures |s| == n && forall k :: 0 <= k < n ==> s[k] == Lookup(d, iBlock, k)
  {
    seq(n, k requires 0 <= k < n => Lookup(d, iBlock, k))
  }

  /** Every block the read goes through has a product of number and block size below 2^32. */
  ghost predicate FileAddressable(d: Disk, iBlock: Inode, all: seq<nat>)
    requires ValidDisk(d)
  {
    && AllAddressable(d, all)
    && (|all| > IND_BLOCK ==> Addressable(d, iBlock[IND_BLOCK]))
    && (|all| > IND_BLOCK + PerBlock(d) ==>
          && Addressable(d, iBlock[DIND_BLOCK])
          && AllAddressable(d, IndexBlocks(d, iBlock[DIND_BLOCK], |all| - IND_BLOCK - PerBlock(d))))
  }

  /** The list an inode's pointers stand for, pointer by pointer. */
  ghost predicate ByPointer(d: Disk, iBlock: Inode, all: seq<nat>)
    requires ValidDisk(d) && |all| <= Reach(d)
  {
    var base := IND_BLOCK + PerBlock(d);
    && (forall k :: 0 <= k < |all| && k < IND_BLOCK ==> all[k] == iBlock[k])
    && (forall j :: 0 <= j < PerBlock(d) && IND_BLOCK + j < |all| ==>
          all[IND_BLOCK + j] == Entry(d, iBlock[IND_BLOCK], j))
    && (|all| > base ==> all[base..] == DoubleEntries(d, iBlock[DIND_BLOCK], |all| - base))
  }

  lemma FileBlocksByPointer(d: Disk, iBlock: Inode, n: nat)
    requires ValidDisk(d) && n <= Reach(d)
    ensures ByPointer(d, iBlock, FileBlocks(d, iBlock, n))
  {
    var all, base := FileBlocks(d, iBlock, n), IND_BLOCK + PerBlock(d);
    if n > base {
      var rest := DoubleEntries(d, iBlock[DIND_BLOCK], n - base);
      forall m | 0 <= m < n - base ensures all[base..][m] == rest[m] {
        assert all[base + m] == Lookup(d, iBlock, base + m);
      }
    }
  }

  /** How many blocks are loaded before pointer i of the inode is used. */
  function Start(d: Disk, i: nat): nat {
    if i <= IND_BLOCK then i else IND_BLOCK + PerBlock(d)
  }

  /** The double-indirect pointer serves all that is left. */
  method ReadDouble(d: Disk, b: nat, left: nat, mem: array<u8>, addr: nat, to: nat,
                    ghost before: seq<u8>, ghost all: seq<nat>, ghost k: nat) returns (tmp: nat)
    requires ValidDisk(d) && 0 < left <= Square(d) && k + left == |all| && all[k..] == DoubleEntries(d, b, left)
    requires Addressable(d, b) && AllAddressable(d, IndexBlocks(d, b, left)) && AllAddressable(d, all)
    requires Loaded(d, mem[..], before, addr, all, k) && to == addr + |Bytes(d, all, k)|
    requires addr + |Bytes(d, all, |all|)| <= mem.Length
    modifies mem
    ensures tmp == left && Loaded(d, mem[..], before, addr, all, k + tmp)
  {
    ghost var part, ram := all[k..], mem[..];
    BytesPlus(d, all, k, left);
    assert AllAddressable(d, part);
    assert part == DoubleEntries(d, b, left) && Least(left, Square(d)) == left;
    tmp := ReadfileDind(d, b, left, mem, to);
    assert Loaded(d, mem[..], ram, to, part, left);
    LoadedMore(d, mem[..], ram, before, addr, all, k, part, left);
  }

  method ReadDirect(d: Disk, iBlock: Inode, i: nat, mem: array<u8>, addr: nat, to: nat,
                    ghost before: seq<u8>, ghost all: seq<nat>, ghost k: nat)
    requires ValidDisk(d) && i < IND_BLOCK && k == i < |all| <= Reach(d)
    requires ByPointer(d, iBlock, all) && AllAddressable(d, all) && addr + |Bytes(d, all, |all|)| <= mem.Length
    requires Loaded(d, mem[..], before, addr, all, k) && to == addr + |Bytes(d, all, k)|
    modifies mem
    ensures Loaded(d, mem[..], before, addr, all, k + 1)
  {
    BytesLength(d, all, k);
    LoadNext(d, iBlock[i], mem, addr, before, all, k, to);
  }

  method ReadIndirect(d: Disk, iBlock: Inode, left: nat, mem: array<u8>, addr: nat, to: nat,
                      ghost before: seq<u8>, ghost all: seq<nat>, ghost k: nat) returns (tmp: nat)
    requires ValidDisk(d) && 0 < left && k == IND_BLOCK && k + left == |all| <= Reach(d)
    requires ByPointer(d, iBlock, all) && AllAddressable(d, all) && Addressable(d, iBlock[IND_BLOCK])
    requires addr + |Bytes(d, all, |all|)| <= mem.Length
    requires Loaded(d, mem[..], before, addr, all, k) && to == addr + |Bytes(d, all, k)|
    modifies mem
    ensures 0 < tmp <= left && (tmp < left ==> Start(d, DIND_BLOCK) == k + tmp)
    ensures Loaded(d, mem[..], before, addr, all, k + tmp)
  {
    tmp := LoadIndexed(d, iBlock[IND_BLOCK], left, mem, addr, to, before, all, k);
  }

  method ReadLast(d: Disk, iBlock: Inode, left: nat, mem: array<u8>, addr: nat, to: nat,
                  ghost before: seq<u8>, ghost all: seq<nat>, ghost k: nat) returns (tmp: nat)
    requires ValidDisk(d) && 0 < left && k == Start(d, DIND_BLOCK) && k + left == |all| <= Reach(d)
    requires ByPointer(d, iBlock, all) && FileAddressable(d, iBlock, all)
    requires addr + |Bytes(d, all, |all|)| <= mem.Length
    requires Loaded(d, mem[..], before, addr, all, k) && to == addr + |Bytes(d, all, k)|
    modifies mem
    ensures tmp == left && Loaded(d, mem[..], before, addr, all, k + tmp)
  {
    tmp := ReadDouble(d, iBlock[DIND_BLOCK], left, mem, addr, to, before, all, k);
  }

  /** One round of the loop of ext2_readfile. */
  method ReadPointer(d: Disk, iBlock: Inode, i: nat, left: nat, mem: array<u8>, addr: nat, to: nat,
                     ghost before: seq<u8>, ghost all: seq<nat>, ghost k: nat) returns (tmp: nat)
    requires ValidDisk(d) && i <= DIND_BLOCK && 0 < left && k == Start(d, i) && k + left == |all| <= Reach(d)
    requires ByPointer(d, iBlock, all) && FileAddressable(d, iBlock, all)
    requires addr + |Bytes(d, all, |all|)| <= mem.Length
    requires Loaded(d, mem[..], before, addr, all, k) && to == addr + |Bytes(d, all, k)|
    modifies mem
    ensures 0 < tmp <= left && (tmp < left ==> i < DIND_BLOCK && Start(d, i + 1) == k + tmp)
    ensures Loaded(d, mem[..], before, addr, all, k + tmp)
  {
    if i < IND_BLOCK {
      ReadDirect(d, iBlock, i, mem, addr, to, before, all, k);
      tmp := 1;
    } else if i == IND_BLOCK {
      tmp := ReadIndirect(d, iBlock, left, mem, addr, to, before, all, k);
    } else {
      tmp := ReadLast(d, iBlock, left, mem, addr, to, before, all, k);
    }
  }

  /** The loop of ext2_readfile. */
  method ReadPointers(d: Disk, iBlock: Inode, n: nat, mem: array<u8>, addr: nat,
                      ghost before: seq<u8>, ghost all: seq<nat>)
    requires ValidDisk(d) && 0 < n == |all| <= Reach(d)
    requires ByPointer(d, iBlock, all) && FileAddressable(d, iBlock, all)
    requires addr + |Bytes(d, all, |all|)| <= mem.Length && Loaded(d, mem[..], before, addr, all, 0)
    modifies mem
    ensures Loaded(d, mem[..], before, addr, all, n)
  {
    var nBlock: nat, i: nat, to: nat, tmp: nat := n, 0, addr, 0;
    ghost var k := 0;
    while i < N_BLOCKS
      invariant i <= DIND_BLOCK && 0 < nBlock && k == Start(d, i) && k + nBlock == n
      invariant to == addr + |Bytes(d, all, k)| && Loaded(d, mem[..], before, addr, all, k)
    {
      tmp := ReadPointer(d, iBlock, i, nBlock, mem, addr, to, before, all, k);
      BytesPlus(d, all, k, tmp);
      to := to + tmp * d.blkSize;
      nBlock := nBlock - tmp;
      k := k + tmp;
      if nBlock == 0 { break; }
      i := i + 1;
    }
    assert i != N_BLOCKS;
  }

  /** ext2_readfile: memory from `addr` becomes the file's logical blocks in order; nothing else changes. */
  method Readfile(d: Disk, iBlock: Inode, iSize: nat, mem: array<u8>, addr: nat)
    requires ValidDisk(d) && 0 < iSize && iSize + d.blkSize - 1 < WORD
    requires var n := (iSize + d.blkSize - 1) / d.blkSize;
      n <= Reach(d) && FileAddressable(d, iBlock, FileBlocks(d, iBlock, n)) && addr + n * d.blkSize <= mem.Length
    modifies mem
    ensures var n := (iSize + d.blkSize - 1) / d.blkSize;
      Loaded(d, mem[..], old(mem[..]), addr, FileBlocks(d, iBlock, n), n)
  {
    var nBlock := (iSize + d.blkSize - 1) / d.blkSize;
    ghost var all := FileBlocks(d, iBlock, nBlock);
    BytesLength(d, all, nBlock);
    OverwriteNothing(mem[..], addr);
    FileBlocksByPointer(d, iBlock, nBlock);
    ReadPointers(d, iBlock, nBlock, mem, addr, mem[..], all);
  }

  /** What that means byte by byte: byte p of the file's block k is at addr + k * blkSize + p. */
  lemma {:induction false} BytesAt(d: Disk, blocks: seq<nat>, n: nat, k: nat, p: nat)
    requires ValidDisk(d) && k < n <= |blocks| && p < d.blkSize
    ensures k * d.blkSize + p < |Bytes(d, blocks, n)|
    ensures Bytes(d, blocks, n)[k * d.blkSize + p] == BlockOf(d, blocks[k])[p]
  {
    BytesLength(d, blocks, n);
    BytesLength(d, blocks, n - 1);
    MulLess(k, n, d.blkSize);
    if k < n - 1 {
      MulLess(k, n - 1, d.blkSize);
      BytesAt(d, blocks, n - 1, k, p);
    }
  }

  // ---------- A file laid out on the device ----------

  /** Byte x of the device. */
  function DeviceByte(d: Disk, x: nat): u8
    requires ValidDisk(d)
  {
    d.sector(x / 1024)[x % 1024]
  }

  lemma {:induction false} SectorsAt(d: Disk, first: nat, n: nat, q: nat)
    requires ValidDisk(d) && q < n * SECTOR
    ensures Sectors(d, first, n)[q] == d.sector(first + q / 1024)[q % 1024]
  {
    if q < (n - 1) * SECTOR { SectorsAt(d, first, n - 1, q); }
  }

  /** Byte p of block b is byte b * blkSize + p of the device. */
  lemma BlockByte(d: Disk, b: nat, p: nat)
    requires ValidDisk(d) && p < d.blkSize
    ensures BlockOf(d, b)[p] == DeviceByte(d, b * d.blkSize + p)
  {
    var n := d.blkSize / SECTOR;
    SectorsAt(d, b * n, n, p);
    SectorOf(b, n, d.blkSize, p);
  }

  lemma SectorOf(b: nat, n: nat, size: nat, p: nat)
    requires size == n * 1024
    ensures (b * size + p) / 1024 == b * n + p / 1024 && (b * size + p) % 1024 == p % 1024
  {
    var m := b * n;
    assert b * size == m * 1024;
    assert b * size + p == (m + p / 1024) * 1024 + p % 1024;
  }

  /** A 32-bit word as its four bytes, the lowest first. */
  function LittleEndian(w: nat): (s: seq<u8>)
    requires w < 0x1_0000_0000
    ensures |s| == 4
  {
    [w % 0x100, w / 0x100 % 0x100, w / 0x1_0000 % 0x100, w / 0x100_0000]
  }

  /** A word is read back as it was stored. */
  lemma WordRoundTrip(s: seq<u8>, k: nat, w: nat)
    requires w < 0x1_0000_0000 && 4 * k + 4 <= |s| && s[4 * k..4 * k + 4] == LittleEndian(w)
    ensures WordAt(s, k) == w
  {
    var t := s[4 * k..4 * k + 4];
    assert s[4 * k] == t[0] && s[4 * k + 1] == t[1] && s[4 * k + 2] == t[2] && s[4 * k + 3] == t[3];
    assert w / 0x1_0000 == 0x100 * (w / 0x100_0000) + w / 0x1_0000 % 0x100;
    assert w / 0x100 == 0x100 * (w / 0x1_0000) + w / 0x100 % 0x100;
  }

  /** The word w is stored from byte x of the device on. */
  ghost predicate WordOnDevice(d: Disk, x: nat, w: nat)
    requires ValidDisk(d)
  {
    w < 0x1_0000_0000 && forall b: nat :: b < 4 ==> DeviceByte(d, x + b) == LittleEndian(w)[b]
  }

  lemma EntryOnDevice(d: Disk, b: nat, k: nat, w: nat)
    requires ValidDisk(d) && k < PerBlock(d) && WordOnDevice(d, b * d.blkSize + 4 * k, w)
    ensures Entry(d, b, k) == w
  {
    var s, le := BlockOf(d, b), LittleEndian(w);
    forall i: nat | i < 4 ensures s[4 * k + i] == le[i] {
      BlockByte(d, b, 4 * k + i);
      assert DeviceByte(d, b * d.blkSize + 4 * k + i) == le[i];
    }
    assert s[4 * k] == s[4 * k + 0] == le[0];
    assert s[4 * k..4 * k + 4] == le;
    WordRoundTrip(s, k, w);
  }

  /** Where a file's blocks are (`place`), and its second-level index blocks (`index`). */
  datatype Layout = Layout(place: nat -> nat, index: nat -> nat)

  function BlockCount(d: Disk, size: nat): nat
    requires ValidDisk(d)
  {
    (size + d.blkSize - 1) / d.blkSize
  }

  /** The inode or an index block names logical block k: 12 direct pointers, then the block that pointer 12
      names, then the blocks named by the block that pointer 13 names. */
  ghost predicate Named(d: Disk, iBlock: Inode, l: Layout, k: nat)
    requires ValidDisk(d)
  {
    var per, m := d.blkSize / 4, k - 12 - d.blkSize / 4;
    if k < 12 then iBlock[k] == l.place(k)
    else if m < 0 then WordOnDevice(d, iBlock[12] * d.blkSize + 4 * (k - 12), l.place(k))
    else
      && WordOnDevice(d, iBlock[13] * d.blkSize + 4 * (m / per), l.index(m / per))
      && WordOnDevice(d, l.index(m / per) * d.blkSize + 4 * (m % per), l.place(k))
  }

  /** The file's byte q is in its place on the device. */
  ghost predicate ByteInPlace(d: Disk, file: seq<u8>, l: Layout, q: nat)
    requires ValidDisk(d) && q < |file|
  {
    DeviceByte(d, l.place(q / d.blkSize) * d.blkSize + q % d.blkSize) == file[q]
  }

  ghost predicate LaidOut(d: Disk, iBlock: Inode, file: seq<u8>, l: Layout) {
    && ValidDisk(d) && BlockCount(d, |file|) <= Reach(d)
    && (forall k: nat :: k < BlockCount(d, |file|) ==> Named(d, iBlock, l, k))
    && forall q: nat :: q < |file| ==> ByteInPlace(d, file, l, q)
  }

  /** The flat map finds each block where it was laid out. */
  lemma LookupFinds(d: Disk, iBlock: Inode, l: Layout, k: nat)
    requires ValidDisk(d) && k < Reach(d) && Named(d, iBlock, l, k)
    ensures Lookup(d, iBlock, k) == l.place(k)
  {
    var per := PerBlock(d);
    if k < 12 {
    } else if k - 12 < per {
      EntryOnDevice(d, iBlock[12], k - 12, l.place(k));
    } else {
      LookupDouble(d, iBlock, l, k, k - 12 - per);
    }
  }

  lemma LookupDouble(d: Disk, iBlock: Inode, l: Layout, k: nat, m: nat)
    requires ValidDisk(d) && k < Reach(d) && m == k - 12 - d.blkSize / 4 && Named(d, iBlock, l, k)
    ensures Lookup(d, iBlock, k) == l.place(k)
  {
    var i, j := m / PerBlock(d), m % PerBlock(d);
    RowAndColumn(d, m);
    DoubleFinds(d, iBlock[13], i, j, l, k);
    IsDoubleEntry(d, iBlock, k, m);
    assert DoubleEntry(d, iBlock[13], m) == Entry(d, Entry(d, iBlock[13], i), j);
  }

  lemma RowAndColumn(d: Disk, m: nat)
    requires ValidDisk(d) && m < Square(d)
    ensures m / PerBlock(d) < PerBlock(d) && m % PerBlock(d) < PerBlock(d)
  {
    SquareIs(d);
    DivInside(m, PerBlock(d));
  }

  lemma IsDoubleEntry(d: Disk, iBlock: Inode, k: nat, m: nat)
    requires ValidDisk(d) && k < Reach(d) && k == 12 + PerBlock(d) + m
    ensures Lookup(d, iBlock, k) == DoubleEntry(d, iBlock[13], m)
  {
  }

  lemma DoubleFinds(d: Disk, b: nat, i: nat, j: nat, l: Layout, k: nat)
    requires ValidDisk(d) && i < PerBlock(d) && j < PerBlock(d)
    requires WordOnDevice(d, b * d.blkSize + 4 * i, l.index(i))
    requires WordOnDevice(d, l.index(i) * d.blkSize + 4 * j, l.place(k))
    ensures Entry(d, Entry(d, b, i), j) == l.place(k)
  {
    EntryOnDevice(d, b, i, l.index(i));
    EntryOnDevice(d, l.index(i), j, l.place(k));
  }

  /** What Readfile loads of a file laid out on the device is the file, byte for byte. */
  lemma ReadsBack(d: Disk, iBlock: Inode, file: seq<u8>, l: Layout, ram: seq<u8>, before: seq<u8>, addr: nat)
    requires LaidOut(d, iBlock, file, l)
    requires Loaded(d, ram, before, addr, FileBlocks(d, iBlock, BlockCount(d, |file|)), BlockCount(d, |file|))
    ensures addr + |file| <= |ram| && ram[addr..addr + |file|] == file
  {
    var n := BlockCount(d, |file|);
    var all := FileBlocks(d, iBlock, n);
    CountCovers(d, |file|);
    BytesLength(d, all, n);
    OverwriteAt(before, addr, Bytes(d, all, n));
    var got := ram[addr..addr + |file|];
    forall q: nat | q < |file| ensures got[q] == file[q] {
      FileByte(d, iBlock, file, l, q);
      assert got[q] == ram[addr + q] == Bytes(d, all, n)[q];
    }
  }

  lemma CountCovers(d: Disk, size: nat)
    requires ValidDisk(d)
    ensures size <= BlockCount(d, size) * d.blkSize
  {
  }

  lemma BlockCounted(d: Disk, size: nat, q: nat)
    requires ValidDisk(d) && q < size
    ensures q / d.blkSize < BlockCount(d, size)
  {
  }

  lemma FileByte(d: Disk, iBlock: Inode, file: seq<u8>, l: Layout, q: nat)
    requires LaidOut(d, iBlock, file, l) && q < |file|
    ensures var all := FileBlocks(d, iBlock, BlockCount(d, |file|));
      q < |Bytes(d, all, |all|)| && Bytes(d, all, |all|)[q] == file[q]
  {
    var n, k, p := BlockCount(d, |file|), q / d.blkSize, q % d.blkSize;
    var all := FileBlocks(d, iBlock, n);
    BlockCounted(d, |file|, q);
    assert Named(d, iBlock, l, k);
    LookupFinds(d, iBlock, l, k);
    BlockAndByte(d, q);
    BytesAt(d, all, n, k, p);
    InPlace(d, file, l, q);
    assert all[k] == l.place(k);
  }

  lemma BlockAndByte(d: Disk, q: nat)
    requires ValidDisk(d)
    ensures q / d.blkSize * d.blkSize + q % d.blkSize == q && q % d.blkSize < d.blkSize
  {
  }

  lemma InPlace(d: Disk, file: seq<u8>, l: Layout, q: nat)
    requires ValidDisk(d) && q < |file| && ByteInPlace(d, file, l, q)
    ensures BlockOf(d, l.place(q / d.blkSize))[q % d.blkSize] == file[q]
  {
    BlockByte(d, l.place(q / d.blkSize), q % d.blkSize);
  }

  /** ext2_readfile on a file laid out on the device. */
  method LoadFile(d: Disk, iBlock: Inode, iSize: nat, mem: array<u8>, addr: nat, ghost file: seq<u8>, ghost l: Layout)
    requires LaidOut(d, iBlock, file, l) && 0 < iSize == |file| && iSize + d.blkSize - 1 < WORD
    requires var n := BlockCount(d, iSize);
      FileAddressable(d, iBlock, FileBlocks(d, iBlock, n)) && addr + n * d.blkSize <= mem.Length
    modifies mem
    ensures mem[addr..addr + iSize] == file
  {
    ghost var before := mem[..];
    Readfile(d, iBlock, iSize, mem, addr);
    ReadsBack(d, iBlock, file, l, mem[..], before, addr);
    assert mem[..][addr..addr + iSize] == mem[addr..addr + iSize];
  }
}
