/** The kernel file system's operations, step by step on the device bytes and on the array of
    used blocks, proved against the value-level operations of `SfsVolume`. */
module SfsKernel {
  import opened SfsLayout
  import opened SfsVolume
  import opened BlockTranslation

  const ENOSPC := 28

  /** Inode numbers of the VFS against slots of the table; 0 is the root directory. */
  function S2V(slot: int): int { slot + 1 }
  function V2S(ino: int): int { ino - 1 }

  /** The slots below `n` correspond to the inode numbers from 1 to `n`, one by one. */
  lemma InodeNumbersAreShifted(slot: int, ino: int, n: int)
    ensures V2S(S2V(slot)) == slot && S2V(V2S(ino)) == ino
    ensures 0 <= slot < n <==> 1 <= S2V(slot) <= n
  {
  }

  class SfsInfo {
    /** The block device below (`vfs_sb->s_bdev`) and its block size. */
    const disk: array<Byte>
    const bdBlockSize: nat

    var sb: SuperBlock
    var used: array<Byte>

    /** The entry table that the device bytes encode. */
    ghost var table: seq<FileEntry>

    /** A device of whole blocks that entries and the superblock do not straddle. */
    predicate GoodDevice() {
      && BLOCK_SIZE <= bdBlockSize && bdBlockSize % ENTRY_SIZE == 0
      && bdBlockSize + BLOCK_SIZE <= WORD_LIMIT
      && disk.Length % bdBlockSize == 0
    }

    ghost function Model(): Volume
      reads this, used
    {
      Volume(sb, table, used[..])
    }

    ghost predicate Valid()
      reads this, disk, used
    {
      && GoodDevice()
      && used != disk
      && Holds(disk[..], sb)
      && table == TableOf(disk[..], sb)
      && DecodeSuperBlock(disk[..BLOCK_SIZE]) == sb
      && WellFormed(Model())
    }

    constructor (disk: array<Byte>, bdBlockSize: nat)
      ensures this.disk == disk && this.bdBlockSize == bdBlockSize
    {
      this.disk := disk;
      this.bdBlockSize := bdBlockSize;
      used := new Byte[0];
      sb := SuperBlock(0, 0, 0, 0, 0, 0, 0, 0);
    }

    // ---------- bytes ----------

    /** `read_from_real_sfs`. */
    method ReadFromRealSfs(block: Word, offset: Word, len: Word) returns (ret: int, buf: seq<Byte>)
      requires 0 < bdBlockSize && len + bdBlockSize <= WORD_LIMIT
      ensures var abs := Absolute(block, offset, sb.blockSize);
              match Locate(abs, len, bdBlockSize, disk.Length)
              case Straddling => ret == -EINVAL
              case Beyond => ret == -EIO
              case Inside(_, _) => ret == 0 && abs + len <= disk.Length && buf == disk[abs..abs + len]
    {
      var abs := Absolute(block, offset, sb.blockSize);
      var devBlock, devOffset := abs / bdBlockSize, abs % bdBlockSize;
      buf := [];
      if ToWord(devOffset + len) > bdBlockSize {
        return -EINVAL, buf;
      }
      if (devBlock + 1) * bdBlockSize > disk.Length {
        return -EIO, buf;
      }
      InBlock(abs, len, bdBlockSize, disk.Length);
      buf := disk[devBlock * bdBlockSize + devOffset..devBlock * bdBlockSize + devOffset + len];
      return 0, buf;
    }

    /** `write_to_real_sfs`. */
    method WriteToRealSfs(block: Word, offset: Word, buf: seq<Byte>) returns (ret: int)
      requires 0 < bdBlockSize && |buf| + bdBlockSize <= WORD_LIMIT
      modifies disk
      ensures var abs := Absolute(block, offset, sb.blockSize);
              match Locate(abs, |buf|, bdBlockSize, disk.Length)
              case Straddling => ret == -EINVAL && disk[..] == old(disk[..])
              case Beyond => ret == -EIO && disk[..] == old(disk[..])
              case Inside(_, _) => ret == 0 && abs + |buf| <= disk.Length &&
                                   disk[..] == Splice(old(disk[..]), abs, buf)
    {
      var abs := Absolute(block, offset, sb.blockSize);
      var devBlock, devOffset := abs / bdBlockSize, abs % bdBlockSize;
      if ToWord(devOffset + |buf|) > bdBlockSize {
        return -EINVAL;
      }
      if (devBlock + 1) * bdBlockSize > disk.Length {
        return -EIO;
      }
      InBlock(abs, |buf|, bdBlockSize, disk.Length);
      CopyIn(disk, devBlock * bdBlockSize + devOffset, buf);
      return 0;
    }

    /** One entry of the table is read; no error is possible. */
    method ReadEntry(slot: nat) returns (ret: int, fe: FileEntry)
      requires Valid() && slot < sb.entryCount
      ensures ret == 0 && fe == table[slot]
    {
      EntryIsInside(sb, slot, bdBlockSize, disk.Length);
      EntriesAt(disk[..], sb, sb.entryCount, slot);
      var buf;
      ret, buf := ReadFromRealSfs(sb.entryTableBlockStart, slot * ENTRY_SIZE, ENTRY_SIZE);
      fe := DecodeEntry(buf);
    }

    /** One entry of the table is written; no error is possible and nothing outside the table
        changes. */
    method WriteEntry(slot: nat, fe: FileEntry) returns (ret: int)
      requires Valid() && slot < sb.entryCount && SafeEntry(sb, fe)
      modifies disk, this`table
      ensures Valid() && ret == 0
      ensures table == old(table)[slot := fe]
      ensures SameOutsideTable(sb, old(disk[..]), disk[..])
    {
      EntryIsInside(sb, slot, bdBlockSize, disk.Length);
      ghost var before := disk[..];
      StoreEntry(before, sb, slot, fe);
      ret := WriteToRealSfs(sb.entryTableBlockStart, slot * ENTRY_SIZE, EncodeEntry(fe));
      table := table[slot := fe];
      assert disk[..BLOCK_SIZE] == before[..BLOCK_SIZE];
    }

    // ---------- mounting ----------

    /** The superblock read from block 0 of the device. */
    function OnDisk(): SuperBlock
      requires BLOCK_SIZE <= disk.Length
      reads disk
    {
      DecodeSuperBlock(disk[..BLOCK_SIZE])
    }

    /** `init_browsing`: reads the superblock and rebuilds the map from the table. */
    method InitBrowsing() returns (ret: int)
      requires GoodDevice() && BLOCK_SIZE <= disk.Length
      requires OnDisk().magic == SFS_TYPE ==>
                 Holds(disk[..], OnDisk()) && SafeTable(OnDisk(), TableOf(disk[..], OnDisk()))
      modifies this
      ensures ret == if OnDisk().magic == SFS_TYPE then 0 else -EINVAL
      ensures ret == 0 ==> Valid() && fresh(used) && sb == OnDisk() && used[..] == MountedMap(sb, table)
                           && table == TableOf(disk[..], sb) && Apply(Model(), Remount) == Model()
      ensures ret != 0 ==> used == old(used) && table == old(table)
    {
      sb := OnDisk();
      if sb.magic != SFS_TYPE {
        return -EINVAL;
      }
      var map0 := new Byte[sb.partitionSize];
      MarkMetadata(map0);
      table := TableOf(disk[..], sb);
      used := map0;
      MarkTable();
      return 0;
    }

    /** The loop over the table in `init_browsing`. */
    method MarkTable()
      requires Valid()
      requires forall b :: 0 <= b < used.Length ==> used[b] == if b < sb.dataBlockStart then 1 else 0
      modifies used
      ensures Valid() && used[..] == MountedMap(sb, table)
    {
      var i := 0;
      while i < sb.entryCount
        invariant i <= sb.entryCount && Valid()
        invariant forall b :: 0 <= b < used.Length ==>
          used[b] == if b < sb.dataBlockStart || Chained(table, i, b) then 1 else 0
      {
        var r, fe := ReadEntry(i);
        assert SafeEntry(sb, fe);
        if Live(fe) {
          MarkChain(fe);
        }
        forall b
          ensures Chained(table, i + 1, b) <==> Chained(table, i, b) || (Live(fe) && b in Chain(fe))
        {
          ChainedNext(table, i, b);
        }
        i := i + 1;
      }
    }

    /** The first two loops of `init_browsing`. */
    method MarkMetadata(map0: array<Byte>)
      requires map0.Length == sb.partitionSize && sb.dataBlockStart <= sb.partitionSize
      modifies map0
      ensures forall b :: 0 <= b < map0.Length ==> map0[b] == if b < sb.dataBlockStart then 1 else 0
    {
      var i := 0;
      while i < sb.dataBlockStart
        invariant i <= sb.dataBlockStart
        invariant forall b :: 0 <= b < i ==> map0[b] == 1
      {
        map0[i] := 1;
        i := i + 1;
      }
      while i < sb.partitionSize
        invariant sb.dataBlockStart <= i <= sb.partitionSize
        invariant forall b :: 0 <= b < i ==> map0[b] == if b < sb.dataBlockStart then 1 else 0
      {
        map0[i] := 0;
        i := i + 1;
      }
    }

    /** The innermost loop of `init_browsing`: it stops at the first zero. */
    method MarkChain(fe: FileEntry)
      requires used.Length == sb.partitionSize && SafeEntry(sb, fe)
      modifies used
      ensures forall b :: 0 <= b < used.Length ==> used[b] == if b in Chain(fe) then 1 else old(used[b])
    {
      var j := 0;
      while j < BLOCK_CNT
        invariant j <= ChainLen(fe.blocks)
        invariant forall b :: 0 <= b < used.Length ==> used[b] == if b in fe.blocks[..j] then 1 else old(used[b])
      {
        if fe.blocks[j] == 0 {
          break;
        }
        assert SafeRef(sb, fe.blocks[j]);
        used[fe.blocks[j]] := 1;
        assert fe.blocks[..j + 1] == fe.blocks[..j] + [fe.blocks[j]];
        j := j + 1;
      }
      assert fe.blocks[..j] == Chain(fe);
    }

    // ---------- the allocator ----------

    /** `sfs_get_data_block`. */
    method SfsGetDataBlock() returns (ret: int)
      requires Valid()
      modifies used
      ensures Valid() && -1 <= ret < sb.partitionSize
      ensures match FirstFree(old(used[..]), sb.dataBlockStart)
              case None => ret == -1 && used[..] == old(used[..])
              case Some(b) => ret == b && used[..] == old(used[..])[b := 1]
    {
      var i := sb.dataBlockStart;
      while i < sb.partitionSize
        invariant sb.dataBlockStart <= i <= sb.partitionSize
        invariant used[..] == old(used[..])
        invariant FirstFree(used[..], sb.dataBlockStart) == FirstFree(used[..], i)
      {
        if used[i] == 0 {
          assert used[..][i] == 0;
          used[i] := 1;
          return i;
        }
        i := i + 1;
      }
      return -1;
    }

    /** `sfs_put_data_block`. */
    method SfsPutDataBlock(i: int)
      requires 0 <= i < used.Length
      modifies used
      ensures used[..] == old(used[..])[i := 0]
    {
      used[i] := 0;
    }

    // ---------- directory operations ----------

    /** `sfs_lookup`: the inode number and the entry, or -1. */
    method SfsLookup(fn: Text) returns (ino: int, fe: FileEntry)
      requires Valid()
      ensures match FindName(table, fn, 0)
              case None => ino == -1
              case Some(slot) => ino == S2V(slot) && fe == table[slot]
    {
      fe := EMPTY_ENTRY;
      var slot := 0;
      while slot < sb.entryCount
        invariant slot <= sb.entryCount
        invariant FindName(table, fn, 0) == FindName(table, fn, slot)
      {
        var r;
        r, fe := ReadEntry(slot);
        if Live(fe) && Name(fe) == fn {
          return S2V(slot), fe;
        }
        slot := slot + 1;
      }
      return -1, fe;
    }

    /** The scan of `sfs_create`: the whole table is searched for the name while the first free
        slot is remembered. */
    method ScanForCreate(fn: Text) returns (found: bool, freeSlot: int, fe: FileEntry)
      requires Valid()
      ensures found <==> FindName(table, fn, 0).Some?
      ensures !found ==> freeSlot == match FindDead(table, 0) case None => -1 case Some(slot) => slot
    {
      fe := EMPTY_ENTRY;
      freeSlot := -1;
      var slot := 0;
      while slot < sb.entryCount
        invariant slot <= sb.entryCount && -1 <= freeSlot
        invariant FindName(table, fn, 0) == FindName(table, fn, slot)
        invariant FindDead(table, 0) == if freeSlot == -1 then FindDead(table, slot) else Some(freeSlot)
      {
        var r;
        r, fe := ReadEntry(slot);
        if !Live(fe) {
          if freeSlot == -1 {
            freeSlot := slot;
          }
        } else if Name(fe) == fn {
          return true, freeSlot, fe;
        }
        slot := slot + 1;
      }
      return false, freeSlot, fe;
    }

    /** `sfs_create`: the inode number and the new entry, or -1. */
    method SfsCreate(fn: Text, perms: int, now: int) returns (ino: int, fe: FileEntry)
      requires Valid()
      modifies disk, this`table
      ensures Valid() && Model() == AfterCreate(old(Model()), fn, perms, now)
      ensures Model() == Apply(old(Model()), Create(fn, perms, now))
      ensures SameOutsideTable(sb, old(disk[..]), disk[..])
      ensures match CreateSlot(old(table), fn)
              case None => ino == -1
              case Some(slot) => ino == S2V(slot) && fe == table[slot]
    {
      var found, freeSlot;
      found, freeSlot, fe := ScanForCreate(fn);
      if found || freeSlot == -1 {
        return -1, fe;
      }
      fe := FillEntry(fe, fn, perms, now);
      NewEntryIsSafe(sb, fn, perms, now);
      var r := WriteEntry(freeSlot, fe);
      return S2V(freeSlot), fe;
    }

    /** `sfs_remove`: puts the chained blocks back and clears the entry. */
    method SfsRemove(fn: Text) returns (ino: int)
      requires Valid()
      modifies disk, used, this`table
      ensures Valid() && Model() == AfterRemove(old(Model()), fn)
      ensures Model() == Apply(old(Model()), Remove(fn))
      ensures SameOutsideTable(sb, old(disk[..]), disk[..])
      ensures match FindName(old(table), fn, 0)
              case None => ino == -1
              case Some(slot) => ino == S2V(slot)
    {
      var fe;
      ino, fe := SfsLookup(fn);
      if ino == -1 {
        return;
      }
      assert SafeEntry(sb, fe);
      PutChain(fe);
      var r := WriteEntry(V2S(ino), EMPTY_ENTRY);
    }

    /** The loop of `sfs_remove`. */
    method PutChain(fe: FileEntry)
      requires used.Length == sb.partitionSize && SafeEntry(sb, fe)
      modifies used
      ensures used[..] == Clear(old(used[..]), Chain(fe))
    {
      var k := 0;
      ghost var before := used[..];
      ClearNone(before);
      while k < BLOCK_CNT
        invariant k <= ChainLen(fe.blocks)
        invariant used[..] == Clear(before, fe.blocks[..k])
      {
        if fe.blocks[k] == 0 {
          break;
        }
        assert SafeRef(sb, fe.blocks[k]);
        ClearUpTo(before, fe, 0, k);
        SfsPutDataBlock(fe.blocks[k]);
        k := k + 1;
      }
      assert fe.blocks[..k] == Chain(fe);
    }

    // ---------- entries ----------

    /** `sfs_get_file_entry`. */
    method SfsGetFileEntry(ino: int) returns (ret: int, fe: FileEntry)
      requires Valid() && 1 <= ino <= sb.entryCount
      ensures ret == 0 && fe == table[V2S(ino)]
    {
      ret, fe := ReadEntry(V2S(ino));
    }

    /** `sfs_update_file_entry`. */
    method SfsUpdateFileEntry(ino: int, fe: FileEntry) returns (ret: int)
      requires Valid() && 1 <= ino <= sb.entryCount && SafeEntry(sb, fe)
      modifies disk, this`table
      ensures Valid() && ret == 0
      ensures table == old(table)[V2S(ino) := fe]
      ensures SameOutsideTable(sb, old(disk[..]), disk[..])
    {
      ret := WriteEntry(V2S(ino), fe);
    }

    /** `sfs_update`: stores the attributes passed and cuts the blocks past the size. */
    method SfsUpdate(ino: int, size: Option<int>, timestamp: Option<int>, perms: Option<int>) returns (ret: int)
      requires Valid() && 1 <= ino <= sb.entryCount
      modifies disk, used, this`table
      ensures Valid() && ret == 0
      ensures Model() == AfterUpdate(old(Model()), V2S(ino), size, timestamp, perms)
      ensures Model() == Apply(old(Model()), Update(V2S(ino), size, timestamp, perms))
      ensures SameOutsideTable(sb, old(disk[..]), disk[..])
    {
      var r, fe := SfsGetFileEntry(ino);
      ghost var e := fe;
      assert SafeEntry(sb, e);
      fe := StoreAttributes(fe, size, timestamp, perms);
      fe := CutTail(fe, KeptBlocks(fe.size));
      UpdatedIsSafe(sb, e, size, timestamp, perms);
      ret := WriteEntry(V2S(ino), fe);
    }

    /** One round of the loop of `sfs_update`. */
    method CutOne(blocks: seq<Word>, i: nat) returns (cut: seq<Word>)
      requires used.Length == sb.partitionSize && i < |blocks| && SafeRef(sb, blocks[i])
      modifies used
      ensures cut == blocks[i := 0]
      ensures used[..] == if blocks[i] == 0 then old(used[..]) else old(used[..])[blocks[i] := 0]
    {
      cut := blocks;
      if blocks[i] != 0 {
        SfsPutDataBlock(blocks[i]);
        cut := blocks[i := 0];
      }
    }

    /** The loop of `sfs_update`: the blocks from index `kept` on are put back and zeroed. */
    method CutTail(fe: FileEntry, kept: nat) returns (cut: FileEntry)
      requires used.Length == sb.partitionSize && SafeEntry(sb, fe)
      modifies used
      ensures used[..] == Clear(old(used[..]), fe.blocks[Min(kept, BLOCK_CNT)..])
      ensures cut == fe.(blocks := seq(BLOCK_CNT, j requires 0 <= j < BLOCK_CNT =>
                             if j < kept then fe.blocks[j] else 0))
    {
      var blocks, i := fe.blocks, kept;
      ghost var before, n := used[..], Min(kept, BLOCK_CNT);
      ClearNone(before);
      assert fe.blocks[n..n] == [];
      while i < BLOCK_CNT
        invariant n <= i && |blocks| == BLOCK_CNT && (i <= BLOCK_CNT || i == kept)
        invariant used[..] == Clear(before, fe.blocks[n..Min(i, BLOCK_CNT)])
        invariant forall j :: 0 <= j < BLOCK_CNT ==> blocks[j] == if kept <= j < i then 0 else fe.blocks[j]
      {
        ClearUpTo(before, fe, n, i);
        blocks := CutOne(blocks, i);
        i := i + 1;
      }
      assert fe.blocks[n..Min(i, BLOCK_CNT)] == fe.blocks[n..];
      cut := fe.(blocks := blocks);
    }

    /** The allocating branch of `sfs_get_block`: the block number goes into the caller's copy of
        the entry, which is written back only if there was a block. */
    method AllocateInto(ino: int, iblock: nat, fe0: FileEntry) returns (ret: int, fe: FileEntry)
      requires Valid() && 1 <= ino <= sb.entryCount && iblock < BLOCK_CNT
      requires fe0 == table[V2S(ino)]
      modifies disk, used, this`table
      ensures Valid() && SameOutsideTable(sb, old(disk[..]), disk[..])
      ensures match FirstFree(old(used[..]), sb.dataBlockStart)
              case None => ret == -ENOSPC && used[..] == old(used[..]) && table == old(table)
              case Some(b) => ret == 0 && fe.blocks[iblock] == b && used[..] == old(used[..])[b := 1]
                              && table == Filled(old(table), V2S(ino), iblock, b)
    {
      assert SafeEntry(sb, fe0);
      var b := SfsGetDataBlock();
      SmallWord(b);
      fe := fe0.(blocks := fe0.blocks[iblock := ToWord(b)]);
      if fe.blocks[iblock] == ToWord(-1) {
        return -ENOSPC, fe;
      }
      FilledIsSafe(sb, fe0, iblock, ToWord(b));
      ret := SfsUpdateFileEntry(ino, fe);
    }

    /** `sfs_get_block`: the device block behind block `iblock` of a file, allocated on demand. */
    method SfsGetBlock(ino: int, iblock: nat, create: bool) returns (ret: int, phys: Word)
      requires Valid() && 1 <= ino <= sb.entryCount
      modifies disk, used, this`table
      ensures Valid() && SameOutsideTable(sb, old(disk[..]), disk[..])
      ensures Model() == MapBlock(old(Model()), V2S(ino), iblock, create).0
      ensures Model() == Apply(old(Model()), GetBlock(V2S(ino), iblock, create))
      ensures match MapBlock(old(Model()), V2S(ino), iblock, create).1
              case Mapped(b) => ret == 0 && phys == b
              case NoSpace => ret == -ENOSPC
              case NotMapped => ret == -EIO
    {
      if iblock >= BLOCK_CNT {
        return -ENOSPC, 0;
      }
      var r, fe := SfsGetFileEntry(ino);
      if fe.blocks[iblock] == 0 {
        if !create {
          return -EIO, 0;
        }
        r, fe := AllocateInto(ino, iblock, fe);
        if r != 0 {
          return r, 0;
        }
      }
      return 0, fe.blocks[iblock];
    }
  }

  /** The entry that `sfs_create` stores, filled field by field over whatever was read last. */
  method FillEntry(fe0: FileEntry, fn: Text, perms: int, now: int) returns (fe: FileEntry)
    ensures fe == NewEntry(fn, perms, now)
  {
    fe := fe0.(name := PadName(fn), size := 0, timestamp := ToWord(now), perms := ToWord(perms));
    var i := 0;
    while i < BLOCK_CNT
      invariant 0 <= i <= BLOCK_CNT
      invariant forall k :: 0 <= k < i ==> fe.blocks[k] == 0
      invariant fe == NewEntry(fn, perms, now).(blocks := fe.blocks)
    {
      fe := fe.(blocks := fe.blocks[i := 0]);
      i := i + 1;
    }
    assert fe.blocks == Zeros(BLOCK_CNT);
  }

  /** The attributes passed to `sfs_update` go into the entry, one by one. */
  method StoreAttributes(fe0: FileEntry, size: Option<int>, timestamp: Option<int>, perms: Option<int>)
    returns (fe: FileEntry)
    ensures fe.name == fe0.name && fe.blocks == fe0.blocks
    ensures fe.size == Or(size, fe0.size) && fe.timestamp == Or(timestamp, fe0.timestamp)
    ensures fe.perms == if perms.Some? && perms.value <= 7 then ToWord(perms.value) else fe0.perms
  {
    fe := fe0;
    if size.Some? {
      fe := fe.(size := ToWord(size.value));
    }
    if timestamp.Some? {
      fe := fe.(timestamp := ToWord(timestamp.value));
    }
    if perms.Some? && perms.value <= 7 {
      fe := fe.(perms := ToWord(perms.value));
    }
  }

  lemma UpdatedIsSafe(sb: SuperBlock, e: FileEntry, size: Option<int>, timestamp: Option<int>, perms: Option<int>)
    requires SafeEntry(sb, e)
    ensures SafeEntry(sb, Updated(e, size, timestamp, perms))
  {
  }

  lemma NewEntryIsSafe(sb: SuperBlock, fn: Text, perms: int, now: int)
    ensures SafeEntry(sb, NewEntry(fn, perms, now))
  {
  }

  lemma FilledIsSafe(sb: SuperBlock, e: FileEntry, j: nat, b: Word)
    requires SafeEntry(sb, e) && j < BLOCK_CNT && SafeRef(sb, b)
    ensures SafeEntry(sb, e.(blocks := e.blocks[j := b]))
  {
  }

  /** A range that ends inside its device block lies in the device where the block does. */
  lemma InBlock(abs: nat, len: nat, d: nat, devSize: nat)
    requires d > 0 && abs % d + len <= d && (abs / d + 1) * d <= devSize
    ensures abs / d * d + abs % d == abs && abs + len <= devSize
  {
    assert (abs / d + 1) * d == abs / d * d + d;
  }
}
