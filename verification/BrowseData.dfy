/** What the user-space write and read of a file do, on values: which blocks a write takes,
    what it leaves in the entry, and what a read returns. */
module BrowseData {
  import opened SfsLayout
  import opened BlockTranslation
  import opened SfsVolume
  import opened SfsConservation
  import opened SfsTruncation
  import opened SfsContent

  /** The block number that a failed allocation of the last, partial block stores. */
  const NO_BLOCK: Word := ToWord(-1)

  // ---------- taking blocks ----------

  function MarkAll(used: seq<Byte>, bs: seq<Word>): (r: seq<Byte>)
    ensures |r| == |used|
    ensures forall b :: 0 <= b < |used| ==> r[b] == if b in bs then 1 else used[b]
  {
    seq(|used|, b requires 0 <= b < |used| => if b in bs then 1 else used[b])
  }

  /** The blocks that up to `n` allocations in a row give, fewer when the file system is full. */
  function TakeFree(used: seq<Byte>, from: nat, n: nat): (r: seq<Word>)
    requires from <= |used| < WORD_LIMIT
    ensures |r| <= n
  {
    if n == 0 then [] else
    var taken := TakeFree(used, from, n - 1);
    var b := FirstFree(MarkAll(used, taken), from);
    if b.None? then taken else taken + [b.value]
  }

  predicate Distinct(s: seq<Word>) {
    forall j, k :: 0 <= j < k < |s| ==> s[j] != s[k]
  }

  predicate FreeIn(used: seq<Byte>, from: nat, s: seq<Word>) {
    forall k :: 0 <= k < |s| ==> from <= s[k] < |used| && used[s[k]] == 0
  }

  lemma FreeAfterMark(used: seq<Byte>, from: nat, s: seq<Word>)
    requires from <= |used| && FreeIn(used, from, s) && Distinct(s)
    ensures FreeBlocks(MarkAll(used, s), from) == FreeBlocks(used, from) - SetOf(s)
    ensures |FreeBlocks(MarkAll(used, s), from)| == |FreeBlocks(used, from)| - |s|
  {
    forall b: int
      ensures b in SetOf(s) <==> b in s
    {
      SetOfIsElements(s, b);
    }
    DistinctSize(s);
    assert SetOf(s) <= FreeBlocks(used, from);
  }

  lemma TakeOneMore(used: seq<Byte>, from: nat, taken: seq<Word>)
    requires from <= |used| < WORD_LIMIT && FreeIn(used, from, taken) && Distinct(taken)
    ensures var b := FirstFree(MarkAll(used, taken), from);
            && (b.Some? ==> FreeIn(used, from, taken + [b.value]) && Distinct(taken + [b.value]))
            && (b.Some? <==> |taken| < |FreeBlocks(used, from)|)
    ensures |taken| <= |FreeBlocks(used, from)|
  {
    var marked := MarkAll(used, taken);
    FreeAfterMark(used, from, taken);
    FullIsNoFreeBlock(marked, from);
    var b := FirstFree(marked, from);
    if b.Some? {
      assert marked[b.value] == 0;
      assert b.value !in taken;
    }
  }

  /** Allocation gives different blocks, all free before, and stops only when none is left. */
  lemma {:induction false} TakeFreeTakes(used: seq<Byte>, from: nat, n: nat)
    requires from <= |used| < WORD_LIMIT
    ensures var r := TakeFree(used, from, n);
            Distinct(r) && FreeIn(used, from, r) && |r| == Min(n, |FreeBlocks(used, from)|)
  {
    if n > 0 {
      TakeFreeTakes(used, from, n - 1);
      TakeOneMore(used, from, TakeFree(used, from, n - 1));
    }
  }

  /** The free blocks below `b`. */
  function FreeBelow(used: seq<Byte>, from: nat, b: int): (s: set<int>) {
    set x | from <= x < b && x < |used| && used[x] == 0
  }

  lemma FewerBelow(used: seq<Byte>, from: nat, x: nat, b: nat)
    requires from <= x < b <= |used| && used[x] == 0
    ensures |FreeBelow(used, from, x)| < |FreeBelow(used, from, b)|
  {
    var less, more := FreeBelow(used, from, x), FreeBelow(used, from, b);
    assert x in more - less;
    assert |more| == |less| + |more - less| by {
      assert more == less + (more - less);
    }
  }

  /** Free, with fewer than `n` free blocks below. */
  predicate AmongLeast(used: seq<Byte>, from: nat, n: nat, b: int) {
    from <= b < |used| && used[b] == 0 && |FreeBelow(used, from, b)| < n
  }

  /** Behind the least free blocks, the next free block has exactly those below it. */
  lemma NextIsLeast(used: seq<Byte>, from: nat, taken: seq<Word>, b: nat)
    requires from <= |used| < WORD_LIMIT && FreeIn(used, from, taken) && Distinct(taken)
    requires FirstFree(MarkAll(used, taken), from) == Some(b)
    requires forall x: int :: x in taken <==> AmongLeast(used, from, |taken|, x)
    ensures from <= b < |used| && used[b] == 0 && |FreeBelow(used, from, b)| == |taken|
  {
    var marked, below := MarkAll(used, taken), FreeBelow(used, from, b);
    FirstFreeIsLeast(marked, from);
    assert marked[b] == 0 && b !in taken;
    forall x: int
      ensures x in below <==> x in SetOf(taken)
    {
      SetOfIsElements(taken, x);
      if x in taken && b < x {
        FewerBelow(used, from, b, x);
      }
      if x in below {
        assert marked[x] != 0;
      }
    }
    assert below == SetOf(taken);
    DistinctSize(taken);
  }

  lemma OneMoreLeast(used: seq<Byte>, from: nat, n: nat, next: nat, b: int)
    requires from <= next < |used| && used[next] == 0 && |FreeBelow(used, from, next)| == n
    ensures AmongLeast(used, from, n + 1, b) <==> AmongLeast(used, from, n, b) || b == next
  {
    if from <= b < |used| && used[b] == 0 {
      if b < next {
        FewerBelow(used, from, b, next);
      } else if next < b {
        FewerBelow(used, from, next, b);
      }
    }
  }

  /** When every free block is taken, the count does not matter. */
  lemma AllTaken(used: seq<Byte>, from: nat, taken: seq<Word>, n: nat, b: int)
    requires from <= |used| && FirstFree(MarkAll(used, taken), from).None?
    requires b in taken <==> AmongLeast(used, from, n, b)
    ensures b in taken <==> AmongLeast(used, from, n + 1, b)
  {
    FirstFreeIsLeast(MarkAll(used, taken), from);
    if from <= b < |used| && used[b] == 0 {
      assert MarkAll(used, taken)[b] != 0;
    }
  }

  lemma LeastAndNext(used: seq<Byte>, from: nat, taken: seq<Word>, next: nat, b: int)
    requires from <= |used| < WORD_LIMIT && FreeIn(used, from, taken) && Distinct(taken)
    requires FirstFree(MarkAll(used, taken), from) == Some(next)
    requires forall x: int :: x in taken <==> AmongLeast(used, from, |taken|, x)
    ensures b in taken + [next] <==> AmongLeast(used, from, |taken| + 1, b)
  {
    NextIsLeast(used, from, taken, next);
    OneMoreLeast(used, from, |taken|, next, b);
    assert b in taken + [next] <==> b in taken || b == next;
  }

  /** Up to `n` allocations in a row give the `n` least free blocks: a block is among them
      exactly when it is free and fewer than `n` free blocks lie below it. */
  lemma {:induction false} TakenAreLeast(used: seq<Byte>, from: nat, n: nat, b: int)
    requires from <= |used| < WORD_LIMIT
    ensures b in TakeFree(used, from, n) <==> AmongLeast(used, from, n, b)
  {
    if n > 0 {
      var taken := TakeFree(used, from, n - 1);
      var next := FirstFree(MarkAll(used, taken), from);
      forall x: int
        ensures x in taken <==> AmongLeast(used, from, n - 1, x)
      {
        TakenAreLeast(used, from, n - 1, x);
      }
      if next.None? {
        AllTaken(used, from, taken, n - 1, b);
      } else {
        TakeFreeTakes(used, from, n - 1);
        TakeOneMore(used, from, taken);
        LeastAndNext(used, from, taken, next.value, b);
      }
    }
  }

  // ---------- reading ----------

  /** How many bytes a read returns: the scan stops at the first zero block number. */
  function ReadableSize(e: FileEntry): nat {
    Min(e.size, BLOCK_SIZE * ChainLen(e.blocks))
  }

  /** The blocks that hold those bytes are on the device. */
  predicate OnDevice(d: seq<Byte>, e: FileEntry) {
    forall k :: 0 <= k < ChainLen(e.blocks) && k * BLOCK_SIZE < e.size ==> (e.blocks[k] + 1) * BLOCK_SIZE <= |d|
  }

  /** What reading the file gives: byte `x` is byte `x % 512` of the block at index `x / 512`. */
  function ReadBack(d: seq<Byte>, e: FileEntry): (r: seq<Byte>)
    requires OnDevice(d, e)
    ensures |r| == ReadableSize(e)
    ensures forall x :: 0 <= x < |r| ==>
              0 <= e.blocks[x / BLOCK_SIZE] * BLOCK_SIZE + x % BLOCK_SIZE < |d| &&
              r[x] == d[e.blocks[x / BLOCK_SIZE] * BLOCK_SIZE + x % BLOCK_SIZE]
  {
    seq(ReadableSize(e), x requires 0 <= x < ReadableSize(e) =>
      assert 0 <= x / BLOCK_SIZE < ChainLen(e.blocks);
      d[e.blocks[x / BLOCK_SIZE] * BLOCK_SIZE + x % BLOCK_SIZE])
  }

  /** The blocks that a read of the file visits for data are in the partition, and their
      positions, computed in 32 bits, are their addresses. */
  predicate Readable(sb: SuperBlock, e: FileEntry) {
    forall k :: 0 <= k < ChainLen(e.blocks) && k * BLOCK_SIZE < e.size ==>
      e.blocks[k] < sb.partitionSize && e.blocks[k] < WORD_BLOCKS
  }

  lemma ReadableIsOnDevice(d: seq<Byte>, sb: SuperBlock, e: FileEntry)
    requires Readable(sb, e) && sb.partitionSize * BLOCK_SIZE <= |d|
    ensures OnDevice(d, e)
  {
  }

  // ---------- writing ----------

  /** The number of blocks a write can use at most. */
  function Room(used: seq<Byte>, from: nat): nat {
    Min(BLOCK_CNT, |FreeBlocks(used, from)|)
  }

  /** The size that a write of `len` bytes stores. */
  function StoredSize(used: seq<Byte>, from: nat, len: nat): nat {
    Min(len, BLOCK_SIZE * Room(used, from))
  }

  /** The last, partial block finds the file system full. */
  predicate PartialFails(used: seq<Byte>, from: nat, len: nat) {
    len % BLOCK_SIZE != 0 && len / BLOCK_SIZE == |FreeBlocks(used, from)| < BLOCK_CNT
  }

  function NewBlocks(used: seq<Byte>, from: nat, len: nat): (r: seq<Word>)
    requires from <= |used| < WORD_LIMIT
  {
    TakeFree(used, from, BlocksNeeded(StoredSize(used, from, len)))
  }

  /** The blocks a write takes are at positions that are their addresses in 32 bits, too. */
  predicate Reaches(used: seq<Byte>, from: nat, len: nat)
    requires from <= |used| < WORD_LIMIT
  {
    forall b :: b in NewBlocks(used, from, len) ==> b < WORD_BLOCKS
  }

  lemma {:induction false} TakeFreePrefix(used: seq<Byte>, from: nat, m: nat, n: nat)
    requires from <= |used| < WORD_LIMIT && m <= n
    ensures TakeFree(used, from, m) <= TakeFree(used, from, n)
  {
    if m < n {
      TakeFreePrefix(used, from, m, n - 1);
    }
  }

  lemma RoomForOneMore(used: seq<Byte>, from: nat, len: nat, fill: nat)
    requires fill < BLOCK_CNT && BLOCK_SIZE * fill < len && fill < |FreeBlocks(used, from)|
    ensures BlocksNeeded(StoredSize(used, from, len)) >= fill + 1
  {
  }

  /** The next block of a write that goes on is within reach. */
  lemma NextIsReached(used: seq<Byte>, from: nat, len: nat, fill: nat, b: nat)
    requires from <= |used| < WORD_LIMIT && Reaches(used, from, len)
    requires fill < BLOCK_CNT && BLOCK_SIZE * fill < len && |TakeFree(used, from, fill)| == fill
    requires FirstFree(MarkAll(used, TakeFree(used, from, fill)), from) == Some(b)
    ensures b < WORD_BLOCKS
  {
    var more, all := TakeFree(used, from, fill + 1), NewBlocks(used, from, len);
    assert |more| == fill + 1 && more[fill] == b;
    TakeFreeTakes(used, from, fill + 1);
    RoomForOneMore(used, from, len, fill);
    TakeFreePrefix(used, from, fill + 1, BlocksNeeded(StoredSize(used, from, len)));
    assert all[fill] == b && all[fill] in all;
  }

  /** A write stays within reach exactly when enough free blocks lie below 2^23, and so always
      on a partition of up to 4 GiB. */
  lemma ReachesExactly(used: seq<Byte>, from: nat, len: nat)
    requires from <= |used| < WORD_LIMIT
    ensures Reaches(used, from, len)
            <==> |FreeBelow(used, from, WORD_BLOCKS)| >= BlocksNeeded(StoredSize(used, from, len))
    ensures |used| <= WORD_BLOCKS ==> Reaches(used, from, len)
  {
    var n, news := BlocksNeeded(StoredSize(used, from, len)), NewBlocks(used, from, len);
    var low := FreeBelow(used, from, WORD_BLOCKS);
    TakeFreeTakes(used, from, n);
    DistinctSize(news);
    if Reaches(used, from, len) {
      forall b: int | b in SetOf(news)
        ensures b in low
      {
        SetOfIsElements(news, b);
      }
      SubsetSize(SetOf(news), low);
    } else {
      var b :| b in news && b >= WORD_BLOCKS;
      TakenAreLeast(used, from, n, b);
      SubsetSize(low, FreeBelow(used, from, b));
    }
  }

  lemma SubsetSize(s: set<int>, t: set<int>)
    requires s <= t
    ensures |s| <= |t|
  {
    assert t == s + (t - s);
  }

  /** The block numbers of the entry after a write: the new ones, in front of what was there. */
  function OverBlocks(before: seq<Word>, news: seq<Word>, failed: bool): (r: seq<Word>)
    requires |before| == BLOCK_CNT && |news| + (if failed then 1 else 0) <= BLOCK_CNT
    ensures |r| == BLOCK_CNT
  {
    if failed then news + [NO_BLOCK] + before[|news| + 1..] else news + before[|news|..]
  }

  /** Byte `x` of a file whose blocks are `bs` is `y`. */
  predicate FileByte(d: seq<Byte>, bs: seq<Word>, x: nat, y: Byte) {
    && x / BLOCK_SIZE < |bs|
    && var at: int := bs[x / BLOCK_SIZE] * BLOCK_SIZE + x % BLOCK_SIZE; at < |d| && d[at] == y
  }

  /** The bytes of `data` lie in the blocks `bs`, in order. */
  predicate Stored(d: seq<Byte>, bs: seq<Word>, data: seq<Byte>) {
    && |data| <= BLOCK_SIZE * |bs|
    && (forall k :: 0 <= k < |bs| ==> (bs[k] + 1) * BLOCK_SIZE <= |d|)
    && forall x {:trigger FileByte(d, bs, x, data[x])} :: 0 <= x < |data| ==> FileByte(d, bs, x, data[x])
  }

  /** No block of the device other than those in `bs` differs. */
  ghost predicate SameBlocksExcept(d: seq<Byte>, d': seq<Byte>, bs: seq<Word>) {
    && |d'| == |d|
    && forall b :: 0 <= b && (b + 1) * BLOCK_SIZE <= |d| && b !in bs ==> BlockAt(d', b) == BlockAt(d, b)
  }

  lemma StoreNext(d: seq<Byte>, bs: seq<Word>, data: seq<Byte>, b: Word, bytes: seq<Byte>)
    requires Stored(d, bs, data) && |data| == BLOCK_SIZE * |bs| && b !in bs
    requires |bytes| <= BLOCK_SIZE && (b + 1) * BLOCK_SIZE <= |d|
    ensures Stored(Splice(d, b * BLOCK_SIZE, bytes), bs + [b], data + bytes)
  {
    var d', bs', data' := Splice(d, b * BLOCK_SIZE, bytes), bs + [b], data + bytes;
    forall x | 0 <= x < |data'|
      ensures FileByte(d', bs', x, data'[x])
    {
      if x < |data| {
        assert FileByte(d, bs, x, data[x]);
        assert bs'[x / BLOCK_SIZE] == bs[x / BLOCK_SIZE] != b;
      } else {
        assert x / BLOCK_SIZE == |bs|;
      }
    }
  }

  lemma SpliceOneBlock(d: seq<Byte>, d': seq<Byte>, bs: seq<Word>, b: Word, bytes: seq<Byte>)
    requires SameBlocksExcept(d, d', bs) && |bytes| <= BLOCK_SIZE && (b + 1) * BLOCK_SIZE <= |d|
    ensures SameBlocksExcept(d, Splice(d', b * BLOCK_SIZE, bytes), bs + [b])
  {
    var d'' := Splice(d', b * BLOCK_SIZE, bytes);
    forall x | 0 <= x && (x + 1) * BLOCK_SIZE <= |d| && x !in bs + [b]
      ensures BlockAt(d'', x) == BlockAt(d, x)
    {
      assert x !in bs && x != b;
      assert BlockAt(d', x) == BlockAt(d, x);
      SpliceElsewhere(d', b * BLOCK_SIZE, bytes, x * BLOCK_SIZE, (x + 1) * BLOCK_SIZE);
    }
  }

  /** What a write of `input` to the file in slot `i` does to the volume and to the device:
      the old chain is put back, the new blocks are taken and filled with the stored prefix,
      and the entry gets the size and the new block numbers in front of what was there. */
  ghost predicate Wrote(v: Volume, d: seq<Byte>, i: nat, input: seq<Byte>, now: int, v': Volume, d': seq<Byte>)
    requires WellFormed(v) && i < |v.table|
  {
    var e, ds := v.table[i], v.sb.dataBlockStart;
    var u := Clear(v.used, Chain(e));
    var size, news, failed := StoredSize(u, ds, |input|), NewBlocks(u, ds, |input|), PartialFails(u, ds, |input|);
    && size < WORD_LIMIT && |news| + (if failed then 1 else 0) <= BLOCK_CNT
    && v' == v.(table := v.table[i := e.(size := size, timestamp := ToWord(now),
                                         blocks := OverBlocks(e.blocks, news, failed))],
                used := MarkAll(u, news))
    && Stored(d', news, input[..size])
    && |d'| == |d|
    && forall b :: (b == 0 || ds <= b) && (b + 1) * BLOCK_SIZE <= |d| && b !in news ==> BlockAt(d', b) == BlockAt(d, b)
  }
}
