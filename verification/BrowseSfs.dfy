/** The user-space browser's data path: `sfs_write` splits an arbitrarily chunked input into
    blocks, `sfs_read` puts a file together again. */
module BrowseSfs {
  import opened SfsLayout
  import opened BlockTranslation
  import opened SfsVolume
  import opened SfsConservation
  import opened SfsTruncation
  import opened SfsContent
  import opened BrowseData

  /** Standard input: each read delivers any positive number of the bytes that are left, up to
      the number asked for; 0 means end of input. */
  class Input {
    var rest: seq<Byte>

    constructor (bytes: seq<Byte>)
      ensures rest == bytes
    {
      rest := bytes;
    }

    method Read(buf: array<Byte>, at: nat, max: nat) returns (n: nat)
      requires 0 < max && at + max <= buf.Length
      modifies this, buf
      ensures n <= max && n <= |old(rest)|
      ensures n == 0 <==> old(rest) == []
      ensures rest == old(rest)[n..]
      ensures buf[..] == Splice(old(buf[..]), at, old(rest)[..n])
    {
      n := 0;
      if rest != [] {
        assert 1 <= 1 <= max && 1 <= |rest|;
        n :| 1 <= n <= max && n <= |rest|;
      }
      CopyIn(buf, at, rest[..n]);
      rest := rest[n..];
    }
  }

  /** The state of the copying loop of `sfs_write` after `fill` whole blocks, as values: `u` is
      the map after the old blocks were put back, `e` the entry as it was found. */
  ghost predicate Copied(d0: seq<Byte>, u: seq<Byte>, ds: nat, e: FileEntry, input: seq<Byte>,
                         d: seq<Byte>, used: seq<Byte>, fe: FileEntry, fill: nat)
    requires ds <= |u| < WORD_LIMIT
  {
    var news := TakeFree(u, ds, fill);
    && Reaches(u, ds, |input|)
    && |news| == fill <= BLOCK_CNT
    && fe == e.(blocks := news + e.blocks[fill..])
    && used == MarkAll(u, news)
    && SameBlocksExcept(d0, d, news)
    && BLOCK_SIZE * fill <= |input|
    && Stored(d, news, input[..BLOCK_SIZE * fill])
  }

  lemma CopiedNone(d: seq<Byte>, u: seq<Byte>, ds: nat, e: FileEntry, input: seq<Byte>)
    requires ds <= |u| < WORD_LIMIT && Reaches(u, ds, |input|)
    ensures Copied(d, u, ds, e, input, d, u, e, 0)
  {
    assert [] + e.blocks[0..] == e.blocks;
    assert MarkAll(u, []) == u;
  }

  lemma TakeNext(u: seq<Byte>, ds: nat, fill: nat, b: nat)
    requires ds <= |u| < WORD_LIMIT && FirstFree(MarkAll(u, TakeFree(u, ds, fill)), ds) == Some(b)
    ensures b !in TakeFree(u, ds, fill)
    ensures TakeFree(u, ds, fill + 1) == TakeFree(u, ds, fill) + [b]
    ensures MarkAll(u, TakeFree(u, ds, fill))[b := 1] == MarkAll(u, TakeFree(u, ds, fill) + [b])
  {
  }

  lemma BlocksNext(news: seq<Word>, blocks: seq<Word>, b: Word)
    requires |news| < |blocks|
    ensures (news + blocks[|news|..])[|news| := b] == news + [b] + blocks[|news| + 1..]
  {
  }

  /** One more block: taken, filled and entered. */
  lemma CopiedNext(d0: seq<Byte>, u: seq<Byte>, ds: nat, e: FileEntry, input: seq<Byte>,
                   d: seq<Byte>, used: seq<Byte>, fe: FileEntry, fill: nat, b: nat)
    requires ds <= |u| < WORD_LIMIT && Copied(d0, u, ds, e, input, d, used, fe, fill)
    requires fill < BLOCK_CNT && FirstFree(used, ds) == Some(b)
    requires BLOCK_SIZE * (fill + 1) <= |input| && (b + 1) * BLOCK_SIZE <= |d|
    ensures Copied(d0, u, ds, e, input,
                   Splice(d, b * BLOCK_SIZE, input[BLOCK_SIZE * fill..BLOCK_SIZE * (fill + 1)]),
                   used[b := 1], fe.(blocks := fe.blocks[fill := b]), fill + 1)
  {
    var news, bytes := TakeFree(u, ds, fill), input[BLOCK_SIZE * fill..BLOCK_SIZE * (fill + 1)];
    TakeNext(u, ds, fill, b);
    BlocksNext(news, e.blocks, b);
    StoreNext(d, news, input[..BLOCK_SIZE * fill], b, bytes);
    assert input[..BLOCK_SIZE * fill] + bytes == input[..BLOCK_SIZE * (fill + 1)];
    SpliceOneBlock(d0, d, news, b, bytes);
  }

  /** Behind `fill` whole blocks the input continues with the first `k` bytes of the buffer. */
  ghost predicate Pending(input: seq<Byte>, fill: nat, buf: seq<Byte>, k: nat, rest: seq<Byte>) {
    k <= |buf| == BLOCK_SIZE && BLOCK_SIZE * fill <= |input| && input[BLOCK_SIZE * fill..] == buf[..k] + rest
  }

  lemma PendingMore(input: seq<Byte>, fill: nat, buf: seq<Byte>, k: nat, rest: seq<Byte>, n: nat)
    requires Pending(input, fill, buf, k, rest) && k + n <= BLOCK_SIZE && n <= |rest|
    ensures Pending(input, fill, Splice(buf, k, rest[..n]), k + n, rest[n..])
  {
    var buf' := Splice(buf, k, rest[..n]);
    assert buf'[..k + n] == buf[..k] + rest[..n];
    assert rest == rest[..n] + rest[n..];
  }

  lemma PendingFull(input: seq<Byte>, fill: nat, buf: seq<Byte>, rest: seq<Byte>)
    requires Pending(input, fill, buf, BLOCK_SIZE, rest)
    ensures BLOCK_SIZE * (fill + 1) <= |input| && input[BLOCK_SIZE * fill..BLOCK_SIZE * (fill + 1)] == buf
    ensures Pending(input, fill + 1, buf, 0, rest)
  {
    var tail := input[BLOCK_SIZE * fill..];
    assert buf[..BLOCK_SIZE] == buf;
    assert tail[..BLOCK_SIZE] == buf && tail[BLOCK_SIZE..] == rest;
    assert input[BLOCK_SIZE * fill..BLOCK_SIZE * (fill + 1)] == tail[..BLOCK_SIZE];
    assert input[BLOCK_SIZE * (fill + 1)..] == tail[BLOCK_SIZE..];
  }

  /** `total` is the stored size of an input of `len` bytes, `n` the number of blocks that takes,
      and `failed` whether the last, partial block finds the file system full. */
  predicate Accounted(u: seq<Byte>, ds: nat, len: nat, total: nat, n: nat, failed: bool) {
    total == StoredSize(u, ds, len) && n == BlocksNeeded(total) && failed == PartialFails(u, ds, len)
  }

  lemma AccountedFits(u: seq<Byte>, ds: nat, len: nat, total: nat, n: nat, failed: bool)
    requires Accounted(u, ds, len, total, n, failed)
    ensures total <= BLOCK_SIZE * BLOCK_CNT && ToWord(total) == total
  {
  }

  /** Size, blocks and failure of a write, from how its loop ended: `fill` whole blocks written,
      `cur` bytes of the next one pending at the end of input, `got` whether they got a block. */
  lemma WriteResult(u: seq<Byte>, ds: nat, len: nat, fill: nat, cur: nat, ended: bool, got: bool)
    requires fill <= BLOCK_CNT && fill <= |FreeBlocks(u, ds)| && cur < BLOCK_SIZE
    requires ended ==> len == BLOCK_SIZE * fill + cur
    requires !ended ==> len >= BLOCK_SIZE * (fill + 1) && (fill == BLOCK_CNT || |FreeBlocks(u, ds)| == fill)
    requires got <==> ended && cur > 0 && fill < BLOCK_CNT && fill < |FreeBlocks(u, ds)|
    ensures Accounted(u, ds, len, BLOCK_SIZE * fill + (if got then cur else 0), fill + (if got then 1 else 0),
                      ended && cur > 0 && fill < BLOCK_CNT && !got)
  {
  }

  /** The device, the map and the entry as `sfs_write` has them before it stores the entry. */
  ghost predicate Finished(d0: seq<Byte>, u: seq<Byte>, ds: nat, e: FileEntry, input: seq<Byte>,
                           d: seq<Byte>, used: seq<Byte>, blocks: seq<Word>, total: nat, n: nat, failed: bool)
    requires ds <= |u| < WORD_LIMIT
  {
    var news := TakeFree(u, ds, n);
    && |news| == n && n + (if failed then 1 else 0) <= BLOCK_CNT && total <= |input|
    && blocks == OverBlocks(e.blocks, news, failed)
    && used == MarkAll(u, news)
    && SameBlocksExcept(d0, d, news)
    && Stored(d, news, input[..total])
  }

  lemma FullExactly(u: seq<Byte>, ds: nat, fill: nat)
    requires ds <= |u| < WORD_LIMIT && |TakeFree(u, ds, fill)| == fill
    ensures fill <= |FreeBlocks(u, ds)|
    ensures FirstFree(MarkAll(u, TakeFree(u, ds, fill)), ds).None? <==> |FreeBlocks(u, ds)| == fill
  {
    TakeFreeTakes(u, ds, fill);
    TakeOneMore(u, ds, TakeFree(u, ds, fill));
  }

  /** The last, partial block got a block. */
  lemma FinishPartial(d0: seq<Byte>, u: seq<Byte>, ds: nat, e: FileEntry, input: seq<Byte>,
                      d: seq<Byte>, used: seq<Byte>, fe: FileEntry, fill: nat, b: nat)
    requires ds <= |u| < WORD_LIMIT && Copied(d0, u, ds, e, input, d, used, fe, fill)
    requires fill < BLOCK_CNT && |input| < BLOCK_SIZE * (fill + 1)
    requires FirstFree(used, ds) == Some(b) && (b + 1) * BLOCK_SIZE <= |d|
    ensures Finished(d0, u, ds, e, input, Splice(d, b * BLOCK_SIZE, input[BLOCK_SIZE * fill..]),
                     used[b := 1], fe.blocks[fill := b], |input|, fill + 1, false)
  {
    var news, bytes := TakeFree(u, ds, fill), input[BLOCK_SIZE * fill..];
    TakeNext(u, ds, fill, b);
    BlocksNext(news, e.blocks, b);
    StoreNext(d, news, input[..BLOCK_SIZE * fill], b, bytes);
    assert input[..BLOCK_SIZE * fill] + bytes == input[..|input|];
    SpliceOneBlock(d0, d, news, b, bytes);
  }

  lemma FinishWhole(d0: seq<Byte>, u: seq<Byte>, ds: nat, e: FileEntry, input: seq<Byte>,
                    d: seq<Byte>, used: seq<Byte>, fe: FileEntry, fill: nat)
    requires ds <= |u| < WORD_LIMIT && Copied(d0, u, ds, e, input, d, used, fe, fill)
    ensures Finished(d0, u, ds, e, input, d, used, fe.blocks, BLOCK_SIZE * fill, fill, false)
  {
  }

  /** The last, partial block found the file system full. */
  lemma FinishFailed(d0: seq<Byte>, u: seq<Byte>, ds: nat, e: FileEntry, input: seq<Byte>,
                     d: seq<Byte>, used: seq<Byte>, fe: FileEntry, fill: nat)
    requires ds <= |u| < WORD_LIMIT && Copied(d0, u, ds, e, input, d, used, fe, fill) && fill < BLOCK_CNT
    ensures Finished(d0, u, ds, e, input, d, used, fe.blocks[fill := NO_BLOCK], BLOCK_SIZE * fill, fill, true)
  {
    BlocksNext(TakeFree(u, ds, fill), e.blocks, NO_BLOCK);
  }

  lemma PendingAccount(u: seq<Byte>, ds: nat, len: nat, fill: nat, cur: nat)
    requires ds <= |u| < WORD_LIMIT && |TakeFree(u, ds, fill)| == fill < BLOCK_CNT
    requires 0 < cur < BLOCK_SIZE && len == BLOCK_SIZE * fill + cur
    ensures if FirstFree(MarkAll(u, TakeFree(u, ds, fill)), ds).Some? then Accounted(u, ds, len, len, fill + 1, false)
            else Accounted(u, ds, len, BLOCK_SIZE * fill, fill, true)
  {
    FullExactly(u, ds, fill);
    WriteResult(u, ds, len, fill, cur, true, FirstFree(MarkAll(u, TakeFree(u, ds, fill)), ds).Some?);
  }

  lemma PendingGot(d0: seq<Byte>, u: seq<Byte>, ds: nat, e: FileEntry, input: seq<Byte>,
                   d: seq<Byte>, used: seq<Byte>, fe: FileEntry, fill: nat, cur: nat, b: nat)
    requires ds <= |u| < WORD_LIMIT && Copied(d0, u, ds, e, input, d, used, fe, fill)
    requires fill < BLOCK_CNT && 0 < cur < BLOCK_SIZE && |input| == BLOCK_SIZE * fill + cur
    requires FirstFree(used, ds) == Some(b) && (b + 1) * BLOCK_SIZE <= |d|
    ensures Accounted(u, ds, |input|, |input|, fill + 1, false)
    ensures Finished(d0, u, ds, e, input, Splice(d, b * BLOCK_SIZE, input[BLOCK_SIZE * fill..]),
                     used[b := 1], fe.blocks[fill := b], |input|, fill + 1, false)
  {
    PendingAccount(u, ds, |input|, fill, cur);
    FinishPartial(d0, u, ds, e, input, d, used, fe, fill, b);
  }

  lemma PendingLost(d0: seq<Byte>, u: seq<Byte>, ds: nat, e: FileEntry, input: seq<Byte>,
                    d: seq<Byte>, used: seq<Byte>, fe: FileEntry, fill: nat, cur: nat)
    requires ds <= |u| < WORD_LIMIT && Copied(d0, u, ds, e, input, d, used, fe, fill)
    requires fill < BLOCK_CNT && 0 < cur < BLOCK_SIZE && |input| == BLOCK_SIZE * fill + cur
    requires FirstFree(used, ds).None?
    ensures Accounted(u, ds, |input|, BLOCK_SIZE * fill, fill, true)
    ensures Finished(d0, u, ds, e, input, d, used, fe.blocks[fill := NO_BLOCK], BLOCK_SIZE * fill, fill, true)
  {
    PendingAccount(u, ds, |input|, fill, cur);
    FinishFailed(d0, u, ds, e, input, d, used, fe, fill);
  }

  lemma PendingEnd(input: seq<Byte>, fill: nat, buf: seq<Byte>, k: nat)
    requires Pending(input, fill, buf, k, [])
    ensures |input| == BLOCK_SIZE * fill + k && input[BLOCK_SIZE * fill..] == buf[..k]
  {
  }

  /** The variables of the loop of `sfs_write`: the entry, the number of whole blocks written
      (`block_i`), the bytes pending in the buffer (`cur_read_i`) and `total_size`. */
  datatype Progress = Progress(fe: FileEntry, fill: nat, cur: nat, total: nat) {
    predicate Sound() {
      cur < BLOCK_SIZE && total == BLOCK_SIZE * fill
    }
  }

  datatype Status = NoFile | NoPermission | Done

  class Browser {
    const sb: SuperBlock
    const disk: array<Byte>
    const used: array<Byte>
    /** The block buffer that input is collected in. */
    const block: array<Byte>

    ghost var table: seq<FileEntry>

    ghost predicate Valid()
      reads this, disk, used, block
    {
      && disk != used && disk != block && used != block && block.Length == BLOCK_SIZE
      && Holds(disk[..], sb)
      && table == TableOf(disk[..], sb)
      && used.Length == sb.partitionSize
    }

    ghost function Model(): Volume
      reads this, used
    {
      Volume(sb, table, used[..])
    }

    constructor (sb: SuperBlock, disk: array<Byte>, used: array<Byte>)
      requires disk != used && Holds(disk[..], sb)
      requires used.Length == sb.partitionSize
      ensures Valid() && this.sb == sb && this.disk == disk && this.used == used && fresh(block)
    {
      this.sb := sb;
      this.disk := disk;
      this.used := used;
      block := new Byte[BLOCK_SIZE];
      table := TableOf(disk[..], sb);
    }

    /** Reading the next entry of the table. */
    method ReadEntry(slot: nat) returns (fe: FileEntry)
      requires Valid() && slot < sb.entryCount
      ensures fe == table[slot]
    {
      EntriesAt(disk[..], sb, sb.entryCount, slot);
      EntryAddrBounds(sb, slot);
      fe := DecodeEntry(disk[EntryAddr(sb, slot)..EntryAddr(sb, slot) + ENTRY_SIZE]);
    }

    /** Seeking to an entry and writing it. */
    method WriteEntry(slot: nat, fe: FileEntry)
      requires Valid() && slot < sb.entryCount
      modifies disk, this`table
      ensures Valid() && table == old(table)[slot := fe] && used[..] == old(used[..])
      ensures SameOutsideTable(sb, old(disk[..]), disk[..])
    {
      EntryAddrBounds(sb, slot);
      StoreEntry(disk[..], sb, slot, fe);
      CopyIn(disk, EntryAddr(sb, slot), EncodeEntry(fe));
      table := table[slot := fe];
    }

    /** `get_data_block`. */
    method GetDataBlock() returns (ret: int)
      requires Valid()
      modifies used
      ensures Valid() && table == old(table) && -1 <= ret < sb.partitionSize && disk[..] == old(disk[..])
      ensures match FirstFree(old(used[..]), sb.dataBlockStart)
              case None => ret == -1 && used[..] == old(used[..])
              case Some(b) => ret == b && used[..] == old(used[..])[b := 1]
    {
      var i := sb.dataBlockStart;
      while i < sb.partitionSize
        invariant sb.dataBlockStart <= i <= sb.partitionSize
        invariant used[..] == old(used[..])
        invariant FirstFree(used[..], sb.dataBlockStart) == FirstFree(used[..], i)
      {
        if used[i] == 0 {
          assert used[..][i] == 0;
          used[i] := 1;
          return i;
        }
        i := i + 1;
      }
      return -1;
    }

    /** `sfs_lookup`. */
    method Lookup(fn: Text) returns (slot: int, fe: FileEntry)
      requires Valid()
      ensures match FindName(table, fn, 0)
              case None => slot == -1
              case Some(s) => slot == s && fe == table[s]
    {
      fe := EMPTY_ENTRY;
      slot := 0;
      while slot < sb.entryCount
        invariant 0 <= slot <= sb.entryCount
        invariant FindName(table, fn, 0) == FindName(table, fn, slot)
      {
        fe := ReadEntry(slot);
        if Live(fe) && Name(fe) == fn {
          return;
        }
        slot := slot + 1;
      }
      slot := -1;
    }

    /** `put_data_block`. */
    method PutDataBlock(i: int)
      requires 0 <= i < used.Length
      modifies used
      ensures used[..] == old(used[..])[i := 0]
    {
      used[i] := 0;
    }

    /** The first loop of `sfs_write`: the chain is put back. */
    method PutChain(fe: FileEntry, ghost input: Input)
      requires Valid() && SafeEntry(sb, fe)
      modifies used
      ensures Valid() && table == old(table) && disk[..] == old(disk[..]) && input.rest == old(input.rest)
      ensures used[..] == Clear(old(used[..]), Chain(fe))
    {
      var k := 0;
      ghost var before := used[..];
      ClearNone(before);
      while k < BLOCK_CNT
        invariant k <= ChainLen(fe.blocks)
        invariant used[..] == Clear(before, fe.blocks[..k])
      {
        if fe.blocks[k] == 0 {
          break;
        }
        ClearUpTo(before, fe, 0, k);
        PutDataBlock(fe.blocks[k]);
        k := k + 1;
      }
      assert fe.blocks[..k] == Chain(fe);
    }

    /** Seeking to a data block and writing the first `n` bytes of the buffer there. */
    method WriteBlock(b: Word, n: nat)
      requires Valid() && sb.dataBlockStart <= b < sb.partitionSize && b < WORD_BLOCKS && n <= BLOCK_SIZE
      modifies disk
      ensures Valid() && table == old(table) && used[..] == old(used[..]) && block[..] == old(block[..])
      ensures disk[..] == Splice(old(disk[..]), b * BLOCK_SIZE, block[..n])
    {
      var pos := ToWord(b * sb.blockSize);
      SmallWord(b * BLOCK_SIZE);
      assert pos == b * BLOCK_SIZE;
      ghost var before := disk[..];
      CopyIn(disk, pos, block[..n]);
      TableUntouched(before, disk[..], sb);
    }

    // ---------- writing ----------

    /** One read of input behind the bytes that the buffer already holds. */
    method Fetch(input: Input, ghost d0: seq<Byte>, ghost u: seq<Byte>, ghost e: FileEntry, ghost all: seq<Byte>,
                 p: Progress) returns (n: nat)
      requires p.Sound() && Copying(d0, u, e, all, p.fe, p.fill, p.cur, input.rest)
      modifies input, block
      ensures n <= BLOCK_SIZE - p.cur && table == old(table)
      ensures Copying(d0, u, e, all, p.fe, p.fill, p.cur + n, input.rest)
      ensures n == 0 ==> input.rest == []
      ensures |input.rest| + n == |old(input.rest)|
    {
      ghost var buf, rest := block[..], input.rest;
      n := input.Read(block, p.cur, BLOCK_SIZE - p.cur);
      PendingMore(all, p.fill, buf, p.cur, rest, n);
    }

    /** A full buffer is written to a new block, if the entry and the file system have one. */
    method WriteFull(fe0: FileEntry, fill: nat, ghost d0: seq<Byte>, ghost u: seq<Byte>, ghost e: FileEntry,
                     ghost all: seq<Byte>, ghost rest: seq<Byte>) returns (fe: FileEntry, ok: bool)
      requires Valid() && |u| == used.Length
      requires Copied(d0, u, sb.dataBlockStart, e, all, disk[..], used[..], fe0, fill)
      requires Pending(all, fill, block[..], BLOCK_SIZE, rest)
      modifies disk, used
      ensures Valid() && table == old(table) && BLOCK_SIZE * (fill + 1) <= |all|
      ensures ok ==> Copied(d0, u, sb.dataBlockStart, e, all, disk[..], used[..], fe, fill + 1)
                     && Pending(all, fill + 1, block[..], 0, rest)
      ensures !ok ==> fe == fe0 && used[..] == old(used[..]) && disk[..] == old(disk[..])
                      && (fill == BLOCK_CNT || FirstFree(used[..], sb.dataBlockStart).None?)
    {
      PendingFull(all, fill, block[..], rest);
      ghost var used0, d := used[..], disk[..];
      fe := fe0;
      if fill == BLOCK_CNT {
        return fe, false;
      }
      var b := GetDataBlock();
      if b == -1 {
        return fe, false;
      }
      NextIsReached(u, sb.dataBlockStart, |all|, fill, b);
      CopiedNext(d0, u, sb.dataBlockStart, e, all, d, used0, fe0, fill, b);
      assert block[..] == block[..sb.blockSize];
      WriteBlock(b, sb.blockSize);
      fe := fe0.(blocks := fe0.blocks[fill := b]);
      return fe, true;
    }

    /** Where the loop of `sfs_write` stands, on the device and in its variables: `d0` and `u` are
        the device and the map at its start, `e` the entry, `all` the input. */
    ghost predicate Copying(d0: seq<Byte>, u: seq<Byte>, e: FileEntry, all: seq<Byte>,
                            fe: FileEntry, fill: nat, k: nat, rest: seq<Byte>)
      reads this, disk, used, block
    {
      && Valid() && |u| == used.Length
      && Copied(d0, u, sb.dataBlockStart, e, all, disk[..], used[..], fe, fill)
      && Pending(all, fill, block[..], k, rest)
    }

    lemma CopyingStarts(e: FileEntry, all: seq<Byte>)
      requires Valid() && Reaches(used[..], sb.dataBlockStart, |all|)
      ensures Copying(disk[..], used[..], e, all, e, 0, 0, all)
    {
      CopiedNone(disk[..], used[..], sb.dataBlockStart, e, all);
      assert all[0..] == block[..0] + all;
    }

    /** One round of the loop of `sfs_write`, after `last` more bytes came into the buffer. */
    method Absorb(p: Progress, last: nat, input: Input, ghost d0: seq<Byte>, ghost u: seq<Byte>, ghost e: FileEntry,
                  ghost all: seq<Byte>) returns (q: Progress, stop: bool)
      requires p.Sound() && 0 < last <= BLOCK_SIZE - p.cur
      requires Copying(d0, u, e, all, p.fe, p.fill, p.cur + last, input.rest)
      modifies disk, used
      ensures q.Sound() && table == old(table) && input.rest == old(input.rest)
      ensures !stop ==> Copying(d0, u, e, all, q.fe, q.fill, q.cur, input.rest)
      ensures stop ==> q == p && Copying(d0, u, e, all, q.fe, q.fill, q.cur + last, input.rest)
                       && |all| >= BLOCK_SIZE * (q.fill + 1)
                       && (q.fill == BLOCK_CNT || FirstFree(used[..], sb.dataBlockStart).None?)
    {
      if last == BLOCK_SIZE - p.cur {
        var fe, ok := WriteFull(p.fe, p.fill, d0, u, e, all, input.rest);
        if !ok {
          return p, true;
        }
        return Progress(fe, p.fill + 1, 0, p.total + sb.blockSize), false;
      }
      return p.(cur := p.cur + last), false;
    }

    /** The loop of `sfs_write`: input is collected in the buffer until a block is full; the
        loop ends at the end of input, at the ninth block or when no block is free. */
    method CopyInput(input: Input, fe: FileEntry, ghost d0: seq<Byte>, ghost u: seq<Byte>, ghost all: seq<Byte>)
      returns (p: Progress, last: nat)
      requires Valid() && input.rest == all && d0 == disk[..] && u == used[..]
      requires Reaches(u, sb.dataBlockStart, |all|)
      modifies input, block, disk, used
      ensures p.Sound() && table == old(table)
      ensures Copying(d0, u, fe, all, p.fe, p.fill, p.cur + last, input.rest)
      ensures last == 0 ==> input.rest == []
      ensures last > 0 ==> |all| >= BLOCK_SIZE * (p.fill + 1)
      ensures last > 0 ==> p.fill == BLOCK_CNT || FirstFree(used[..], sb.dataBlockStart).None?
    {
      p := Progress(fe, 0, 0, 0);
      ghost var t := table;
      CopyingStarts(fe, all);
      last := Fetch(input, d0, u, fe, all, p);
      while last > 0
        invariant p.Sound() && last <= BLOCK_SIZE - p.cur && table == t
        invariant Copying(d0, u, fe, all, p.fe, p.fill, p.cur + last, input.rest)
        invariant last == 0 ==> input.rest == []
        decreases |input.rest| + last
      {
        var stop;
        p, stop := Absorb(p, last, input, d0, u, fe, all);
        if stop {
          break;
        }
        last := Fetch(input, d0, u, fe, all, p);
      }
    }

    /** The last, partial block of `sfs_write`. A failed allocation leaves -1 in the entry. */
    method WritePartial(fe0: FileEntry, fill: nat, cur: nat, ghost bytes: seq<Byte>) returns (fe: FileEntry, got: bool)
      requires Valid() && fill < BLOCK_CNT && cur < BLOCK_SIZE && bytes == block[..cur]
      requires var b := FirstFree(used[..], sb.dataBlockStart); b.Some? ==> b.value < WORD_BLOCKS
      modifies disk, used
      ensures Valid() && table == old(table)
      ensures got <==> FirstFree(old(used[..]), sb.dataBlockStart).Some?
      ensures match FirstFree(old(used[..]), sb.dataBlockStart)
              case None => fe == fe0.(blocks := fe0.blocks[fill := NO_BLOCK]) && used[..] == old(used[..])
                           && disk[..] == old(disk[..])
              case Some(b) => b < sb.partitionSize && fe == fe0.(blocks := fe0.blocks[fill := b])
                              && used[..] == old(used[..])[b := 1]
                              && disk[..] == Splice(old(disk[..]), b * BLOCK_SIZE, bytes)
    {
      var b := GetDataBlock();
      SmallWord(b);
      fe := fe0.(blocks := fe0.blocks[fill := ToWord(b)]);
      got := fe.blocks[fill] != NO_BLOCK;
      if got {
        WriteBlock(fe.blocks[fill], cur);
      }
    }

    /** The pending bytes get a block if the file system has one. */
    method FinishBlock(p: Progress, ghost d0: seq<Byte>, ghost u: seq<Byte>, ghost e: FileEntry, ghost all: seq<Byte>)
      returns (fe: FileEntry, total: nat, ghost n: nat, ghost failed: bool)
      requires p.Sound() && p.cur != 0 && p.fill < BLOCK_CNT
      requires Copying(d0, u, e, all, p.fe, p.fill, p.cur, [])
      modifies disk, used
      ensures Valid() && table == old(table) && fe == p.fe.(blocks := fe.blocks)
      ensures Accounted(u, sb.dataBlockStart, |all|, total, n, failed)
      ensures Finished(d0, u, sb.dataBlockStart, e, all, disk[..], used[..], fe.blocks, total, n, failed)
    {
      ghost var d, us := disk[..], used[..];
      PendingEnd(all, p.fill, block[..], p.cur);
      if FirstFree(us, sb.dataBlockStart).Some? {
        NextIsReached(u, sb.dataBlockStart, |all|, p.fill, FirstFree(us, sb.dataBlockStart).value);
      }
      var got;
      fe, got := WritePartial(p.fe, p.fill, p.cur, all[BLOCK_SIZE * p.fill..]);
      total := p.total;
      if got {
        total := total + p.cur;
        n, failed := p.fill + 1, false;
        PendingGot(d0, u, sb.dataBlockStart, e, all, d, us, p.fe, p.fill, p.cur,
                   FirstFree(us, sb.dataBlockStart).value);
      } else {
        n, failed := p.fill, true;
        PendingLost(d0, u, sb.dataBlockStart, e, all, d, us, p.fe, p.fill, p.cur);
      }
    }

    /** What `sfs_write` does after its loop. */
    method FinishInput(p: Progress, last: nat, ghost d0: seq<Byte>, ghost u: seq<Byte>, ghost e: FileEntry,
                       ghost all: seq<Byte>, ghost rest: seq<Byte>)
      returns (fe: FileEntry, total: nat, ghost n: nat, ghost failed: bool)
      requires p.Sound() && Copying(d0, u, e, all, p.fe, p.fill, p.cur + last, rest)
      requires last == 0 ==> rest == []
      requires last > 0 ==> |all| >= BLOCK_SIZE * (p.fill + 1)
      requires last > 0 ==> p.fill == BLOCK_CNT || FirstFree(used[..], sb.dataBlockStart).None?
      modifies disk, used
      ensures Valid() && table == old(table) && fe == p.fe.(blocks := fe.blocks)
      ensures Accounted(u, sb.dataBlockStart, |all|, total, n, failed)
      ensures Finished(d0, u, sb.dataBlockStart, e, all, disk[..], used[..], fe.blocks, total, n, failed)
    {
      if last == 0 && p.cur != 0 {
        if p.fill != BLOCK_CNT {
          fe, total, n, failed := FinishBlock(p, d0, u, e, all);
          return;
        }
      }
      fe, total, n, failed := p.fe, p.total, p.fill, false;
      if last == 0 {
        PendingEnd(all, p.fill, block[..], p.cur);
      }
      FullExactly(u, sb.dataBlockStart, p.fill);
      WriteResult(u, sb.dataBlockStart, |all|, p.fill, p.cur, last == 0, false);
      FinishWhole(d0, u, sb.dataBlockStart, e, all, disk[..], used[..], p.fe, p.fill);
    }

    /** The blocks that a write of `len` bytes to that entry takes are within reach. */
    ghost predicate WithinReach(e: FileEntry, len: nat)
      reads this, disk, used, block
    {
      Valid() && Reaches(Clear(used[..], Chain(e)), sb.dataBlockStart, len)
    }

    /** `sfs_write`. */
    method Write(fn: Text, input: Input, now: int) returns (status: Status)
      requires Valid() && WellFormed(Model())
      requires var i := FindName(table, fn, 0);
               i.Some? && table[i.value].perms / 2 % 2 != 0 ==> WithinReach(table[i.value], |input.rest|)
      modifies input, block, disk, used, this`table
      ensures Valid()
      ensures match FindName(old(table), fn, 0)
              case None => status == NoFile && Model() == old(Model()) && disk[..] == old(disk[..])
              case Some(i) =>
                if old(table)[i].perms / 2 % 2 == 0
                then status == NoPermission && Model() == old(Model()) && disk[..] == old(disk[..])
                else status == Done && Wrote(old(Model()), old(disk[..]), i, old(input.rest), now, Model(), disk[..])
    {
      var slot, fe := Lookup(fn);
      if slot == -1 {
        return NoFile;
      }
      if fe.perms / 2 % 2 == 0 {
        return NoPermission;
      }
      Store(slot, fe, input, now);
      return Done;
    }

    /** The part of `sfs_write` behind its two checks. */
    method Store(slot: nat, e: FileEntry, input: Input, now: int)
      requires Valid() && WellFormed(Model()) && slot < |table| && e == table[slot]
      requires WithinReach(e, |input.rest|)
      modifies input, block, disk, used, this`table
      ensures Valid()
      ensures Wrote(old(Model()), old(disk[..]), slot, old(input.rest), now, Model(), disk[..])
    {
      ghost var v, d0, all := Model(), disk[..], input.rest;
      assert SafeEntry(sb, e);
      PutChain(e, input);
      ghost var u := used[..];
      var p, last := CopyInput(input, e, d0, u, all);
      var fe, total, n, failed := FinishInput(p, last, d0, u, e, all, input.rest);
      ghost var d1 := disk[..];
      AccountedFits(u, sb.dataBlockStart, |all|, total, n, failed);
      fe := fe.(size := ToWord(total), timestamp := ToWord(now));
      WriteEntry(slot, fe);
      Conclude(v, d0, slot, all, now, u, d1, fe, n, failed, Model(), disk[..]);
    }

    // ---------- reading ----------

    /** The loop of `sfs_read`; `out` is what goes to standard output. */
    method ReadBlocks(fe: FileEntry) returns (out: seq<Byte>)
      requires Valid() && Readable(sb, fe)
      modifies block
      ensures Valid() && OnDevice(disk[..], fe) && out == ReadBack(disk[..], fe)
    {
      ReadableIsOnDevice(disk[..], sb, fe);
      out := [];
      ghost var all := ReadBack(disk[..], fe);
      var rem, i := fe.size, 0;
      while i < BLOCK_CNT
        invariant 0 <= i <= ChainLen(fe.blocks) && Valid()
        invariant rem == fe.size - BLOCK_SIZE * i && (i > 0 ==> rem > 0)
        invariant out == all[..BLOCK_SIZE * i]
      {
        if fe.blocks[i] == 0 {
          break;
        }
        var toRead := if rem >= sb.blockSize then sb.blockSize else rem;
        var piece := ReadDisk(ToWord(fe.blocks[i] * sb.blockSize), toRead);
        if toRead > 0 {
          SmallWord(fe.blocks[i] * BLOCK_SIZE);
        }
        NextPiece(disk[..], fe, i, piece);
        out := out + piece;
        rem := rem - toRead;
        if rem == 0 {
          return;
        }
        i := i + 1;
      }
    }

    /** Seeking, reading up to `n` bytes into the buffer, and handing out `n` bytes of it. */
    method ReadDisk(pos: Word, n: nat) returns (bytes: seq<Byte>)
      requires Valid() && n <= BLOCK_SIZE
      modifies block
      ensures Valid() && |bytes| == n && disk[..] == old(disk[..])
      ensures pos + n <= disk.Length ==> bytes == disk[pos..pos + n]
    {
      var from, to := Min(pos, disk.Length), Min(pos + n, disk.Length);
      CopyIn(block, 0, disk[from..to]);
      bytes := block[..n];
    }

    /** `sfs_read`. */
    method Read(fn: Text) returns (status: Status, out: seq<Byte>)
      requires Valid()
      requires var i := FindName(table, fn, 0);
               i.Some? && table[i.value].perms / 4 % 2 != 0 ==> Readable(sb, table[i.value])
      modifies block
      ensures Valid()
      ensures match FindName(table, fn, 0)
              case None => status == NoFile && out == []
              case Some(i) =>
                if table[i].perms / 4 % 2 == 0 then status == NoPermission && out == []
                else status == Done && OnDevice(disk[..], table[i]) && out == ReadBack(disk[..], table[i])
    {
      var slot, fe := Lookup(fn);
      if slot == -1 {
        return NoFile, [];
      }
      if fe.perms / 4 % 2 == 0 {
        return NoPermission, [];
      }
      out := ReadBlocks(fe);
      return Done, out;
    }
  }

  lemma OutsideTableStays(sb: SuperBlock, d: seq<Byte>, d': seq<Byte>, b: nat)
    requires Geometry(sb) && SameOutsideTable(sb, d, d') && (b + 1) * BLOCK_SIZE <= |d|
    requires b == 0 || sb.dataBlockStart <= b
    ensures BlockAt(d', b) == BlockAt(d, b)
  {
  }

  lemma StoredStays(sb: SuperBlock, d: seq<Byte>, d': seq<Byte>, bs: seq<Word>, data: seq<Byte>)
    requires Geometry(sb) && SameOutsideTable(sb, d, d') && Stored(d, bs, data)
    requires forall k :: 0 <= k < |bs| ==> sb.dataBlockStart <= bs[k]
    ensures Stored(d', bs, data)
  {
    forall x | 0 <= x < |data|
      ensures FileByte(d', bs, x, data[x])
    {
      assert FileByte(d, bs, x, data[x]);
      var b := bs[x / BLOCK_SIZE];
      assert sb.dataBlockStart <= b;
    }
  }

  /** Storing the entry completes the write. */
  lemma Conclude(v: Volume, d: seq<Byte>, i: nat, input: seq<Byte>, now: int, u: seq<Byte>, d1: seq<Byte>,
                 fe: FileEntry, n: nat, failed: bool, v': Volume, d': seq<Byte>)
    requires WellFormed(v) && i < |v.table| && u == Clear(v.used, Chain(v.table[i]))
    requires Accounted(u, v.sb.dataBlockStart, |input|, fe.size, n, failed)
    requires Finished(d, u, v.sb.dataBlockStart, v.table[i], input, d1, v'.used, fe.blocks, fe.size, n, failed)
    requires fe == v.table[i].(size := fe.size, timestamp := ToWord(now), blocks := fe.blocks)
    requires v' == v.(table := v.table[i := fe], used := v'.used)
    requires SameOutsideTable(v.sb, d1, d')
    ensures Wrote(v, d, i, input, now, v', d')
  {
    var ds := v.sb.dataBlockStart;
    var news := TakeFree(u, ds, n);
    TakeFreeTakes(u, ds, n);
    StoredStays(v.sb, d1, d', news, input[..fe.size]);
    forall b | (b == 0 || ds <= b) && (b + 1) * BLOCK_SIZE <= |d| && b !in news
      ensures BlockAt(d', b) == BlockAt(d, b)
    {
      assert BlockAt(d1, b) == BlockAt(d, b);
      OutsideTableStays(v.sb, d1, d', b);
    }
  }

  lemma ReadByte(d: seq<Byte>, fe: FileEntry, i: nat, x: nat)
    requires OnDevice(d, fe) && x < BLOCK_SIZE && BLOCK_SIZE * i + x < ReadableSize(fe)
    ensures i < ChainLen(fe.blocks) && 0 <= fe.blocks[i] * BLOCK_SIZE + x < |d|
    ensures ReadBack(d, fe)[BLOCK_SIZE * i + x] == d[fe.blocks[i] * BLOCK_SIZE + x]
  {
    var p := BLOCK_SIZE * i + x;
    assert p / BLOCK_SIZE == i && p % BLOCK_SIZE == x;
  }

  lemma PieceFits(fe: FileEntry, i: nat, len: nat)
    requires i < ChainLen(fe.blocks) && BLOCK_SIZE * i <= fe.size && len == Min(fe.size - BLOCK_SIZE * i, BLOCK_SIZE)
    ensures BLOCK_SIZE * i + len <= ReadableSize(fe)
  {
  }

  /** One more block of a file read. */
  lemma NextPiece(d: seq<Byte>, fe: FileEntry, i: nat, piece: seq<Byte>)
    requires OnDevice(d, fe) && i < ChainLen(fe.blocks) && BLOCK_SIZE * i <= fe.size
    requires |piece| == Min(fe.size - BLOCK_SIZE * i, BLOCK_SIZE)
    requires piece != [] ==> (fe.blocks[i] + 1) * BLOCK_SIZE <= |d| &&
                             piece == d[fe.blocks[i] * BLOCK_SIZE..fe.blocks[i] * BLOCK_SIZE + |piece|]
    ensures BLOCK_SIZE * i + |piece| <= ReadableSize(fe)
    ensures ReadBack(d, fe)[..BLOCK_SIZE * i] + piece == ReadBack(d, fe)[..BLOCK_SIZE * i + |piece|]
  {
    PieceFits(fe, i, |piece|);
    var all, from := ReadBack(d, fe), BLOCK_SIZE * i;
    forall x | 0 <= x < |piece|
      ensures all[from + x] == piece[x]
    {
      ReadByte(d, fe, i, x);
    }
    PrefixGrows(all, from, piece);
  }

  lemma PrefixGrows(all: seq<Byte>, from: nat, piece: seq<Byte>)
    requires from + |piece| <= |all| && forall x :: 0 <= x < |piece| ==> all[from + x] == piece[x]
    ensures all[..from] + piece == all[..from + |piece|]
  {
  }
}
