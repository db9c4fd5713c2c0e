/** The formatter: layout arithmetic, the superblock and the cleared table, and the initial
    state that mounting a formatted device gives. */
module SfsFormat {
  import opened SfsLayout
  import opened SfsVolume
  import opened SfsOwnership
  import opened SfsRuns
  import opened SfsDirectory
  import opened SfsContent
  import opened SfsKernel

  const ENTRY_RATIO := 10
  const TABLE_START := 1

  /** The first number of blocks, 10 * 2^23, whose table is too large for 32 bits. */
  const MAX_PARTITION := 83886080

  /** The superblock computed for a device of `size` bytes, in 32-bit arithmetic. The factor
      0.10 in double precision gives the integer quotient by 10 for every 32-bit count. */
  function Layout(size: nat): SuperBlock {
    var partitionSize := ToWord(size / BLOCK_SIZE);
    var tableSize := partitionSize / ENTRY_RATIO;
    SuperBlock(SFS_TYPE, BLOCK_SIZE, partitionSize, ENTRY_SIZE, tableSize, TABLE_START,
               ToWord(tableSize * BLOCK_SIZE) / ENTRY_SIZE, TABLE_START + tableSize)
  }

  /** The layout is sound, the entries filling the table exactly, precisely for partitions of
      at least one block and fewer than 10 * 2^23; from there on the size of the table in bytes
      no longer fits in 32 bits. */
  lemma LayoutIsSoundExactly(size: nat)
    ensures Geometry(Layout(size)) <==> 1 <= size / BLOCK_SIZE % WORD_LIMIT < MAX_PARTITION
    ensures Layout(size).entryCount * ENTRY_SIZE == Layout(size).entryTableSize * BLOCK_SIZE
            <==> size / BLOCK_SIZE % WORD_LIMIT < MAX_PARTITION
  {
  }

  /** The layout in numbers: the partition is the device in blocks, the table is the integer part
      of a tenth of it and starts behind the superblock, a table block holds eight entries, and the
      data blocks start behind the table. */
  lemma LayoutInNumbers(size: nat)
    requires size / BLOCK_SIZE < MAX_PARTITION
    ensures var sb := Layout(size);
            && sb.magic == 0x13090D15 && sb.blockSize == 512 && sb.entrySize == 64
            && 512 * sb.partitionSize <= size < 512 * (sb.partitionSize + 1)
            && 10 * sb.entryTableSize <= sb.partitionSize < 10 * (sb.entryTableSize + 1)
            && sb.entryTableBlockStart == 1 && sb.dataBlockStart == sb.entryTableSize + 1
            && sb.entryCount == 8 * sb.entryTableSize
  {
  }

  /** Superblock, table and data region of a sound layout follow each other without overlap
      and end inside the device. */
  lemma RegionsAreDisjoint(size: nat)
    requires 1 <= Layout(size).partitionSize < MAX_PARTITION
    ensures var sb := Layout(size);
            && EntryAddr(sb, 0) == BLOCK_SIZE
            && EntryAddr(sb, sb.entryCount) == sb.dataBlockStart * BLOCK_SIZE
            && sb.dataBlockStart <= sb.partitionSize
            && sb.partitionSize * BLOCK_SIZE <= size
  {
  }

  /** `clear_file_entries` fills one block with empty entries. */
  method EmptyEntryBlock(sb: SuperBlock) returns (block: array<Byte>)
    requires sb.entrySize == ENTRY_SIZE && sb.blockSize == BLOCK_SIZE
    ensures fresh(block) && block[..] == Zeros(BLOCK_SIZE)
  {
    block := new Byte[BLOCK_SIZE];
    EncodeEmptyEntry();
    var i := 0;
    while i < sb.blockSize / sb.entrySize
      invariant 0 <= i <= BLOCK_SIZE / ENTRY_SIZE
      invariant forall k :: 0 <= k < i * ENTRY_SIZE ==> block[..][k] == 0
    {
      CopyIn(block, i * sb.entrySize, EncodeEntry(EMPTY_ENTRY));
      i := i + 1;
    }
  }

  lemma EncodeEmptyEntry()
    ensures EncodeEntry(EMPTY_ENTRY) == Zeros(ENTRY_SIZE)
  {
    DecodeZeroEntry();
    EncodeDecodeEntry(Zeros(ENTRY_SIZE));
  }

  /** `main` of the formatter, writing sequentially from the start of the device. */
  method Format(disk: array<Byte>)
    requires 1 <= Layout(disk.Length).partitionSize
    modifies disk
    ensures disk[..BLOCK_SIZE] == EncodeSuperBlock(Layout(disk.Length))
    ensures SuperBlockAt(disk[..BLOCK_SIZE], Layout(disk.Length))
    ensures WordAt(disk[..], 8, disk.Length / BLOCK_SIZE % WORD_LIMIT)
    ensures forall k :: BLOCK_SIZE <= k < Layout(disk.Length).dataBlockStart * BLOCK_SIZE ==> disk[k] == 0
    ensures forall k :: Layout(disk.Length).dataBlockStart * BLOCK_SIZE <= k < disk.Length ==> disk[k] == old(disk[k])
    ensures Layout(disk.Length).partitionSize < MAX_PARTITION ==> Formatted(disk[..])
  {
    var sb := Layout(disk.Length);
    assert sb.dataBlockStart <= sb.partitionSize;
    assert sb.partitionSize * BLOCK_SIZE <= disk.Length;
    ghost var header := EncodeSuperBlock(sb);
    CopyIn(disk, 0, EncodeSuperBlock(sb));
    assert forall k :: 0 <= k < BLOCK_SIZE ==> disk[..][k] == header[k];
    var block := EmptyEntryBlock(sb);
    var i := 0;
    while i < sb.entryTableSize
      invariant i <= sb.entryTableSize && block != disk && block[..] == Zeros(BLOCK_SIZE)
      invariant forall k :: 0 <= k < BLOCK_SIZE ==> disk[k] == header[k]
      invariant forall k :: BLOCK_SIZE <= k < (i + 1) * BLOCK_SIZE ==> disk[k] == 0
      invariant forall k :: (i + 1) * BLOCK_SIZE <= k < disk.Length ==> disk[k] == old(disk[k])
    {
      ghost var before := disk[..];
      CopyIn(disk, (i + 1) * BLOCK_SIZE, block[..]);
      assert forall k :: 0 <= k < disk.Length ==> disk[k] == Splice(before, (i + 1) * BLOCK_SIZE, Zeros(BLOCK_SIZE))[k];
      i := i + 1;
    }
    assert disk[..BLOCK_SIZE] == header;
    SuperBlockBytes(sb);
    assert forall k :: 8 <= k < 12 ==> disk[..][k] == header[k];
  }

  /** What formatting leaves on a device. */
  predicate Formatted(d: seq<Byte>) {
    && 1 <= Layout(|d|).partitionSize < MAX_PARTITION
    && d[..BLOCK_SIZE] == EncodeSuperBlock(Layout(|d|))
    && forall k :: BLOCK_SIZE <= k < Layout(|d|).dataBlockStart * BLOCK_SIZE ==> d[k] == 0
  }

  lemma FormattedTable(d: seq<Byte>)
    requires Formatted(d)
    ensures Holds(d, Layout(|d|))
    ensures forall i :: 0 <= i < Layout(|d|).entryCount ==> TableOf(d, Layout(|d|))[i] == EMPTY_ENTRY
  {
    var sb := Layout(|d|);
    RegionsAreDisjoint(|d|);
    forall i | 0 <= i < sb.entryCount
      ensures TableOf(d, sb)[i] == EMPTY_ENTRY
    {
      EntriesAt(d, sb, sb.entryCount, i);
      EntryAddrBounds(sb, i);
      assert d[EntryAddr(sb, i)..EntryAddr(sb, i) + ENTRY_SIZE] == Zeros(ENTRY_SIZE);
      DecodeZeroEntry();
    }
  }

  /** The volume that mounting a formatted device gives. */
  function FreshVolume(d: seq<Byte>): Volume
    requires Formatted(d)
  {
    RegionsAreDisjoint(|d|);
    var sb := Layout(|d|);
    Volume(sb, TableOf(d, sb), MountedMap(sb, TableOf(d, sb)))
  }

  /** A formatted device mounts as a consistent volume with an empty directory, in which exactly
      the first `data_block_start` blocks are used. */
  lemma FormatEstablishes(d: seq<Byte>)
    requires Formatted(d)
    ensures var v := FreshVolume(d);
            && Consistent(v)
            && Coherent(World(v, d))
            && UniqueNames(v.table) && Directory(v.table) == map[]
            && forall b :: 0 <= b < |v.used| ==> v.used[b] == if b < v.sb.dataBlockStart then 1 else 0
  {
    var v := FreshVolume(d);
    FormattedTable(d);
    DecodeEncodeSuperBlock(v.sb);
    EmptyTable(v.table);
    MountGivesConsistent(v);
    assert AfterMount(v) == v;
  }

  lemma EmptyTable(t: seq<FileEntry>)
    requires forall i :: 0 <= i < |t| ==> t[i] == EMPTY_ENTRY
    ensures Tidy(t) && Injective(t) && UniqueNames(t) && Directory(t) == map[]
    ensures forall b :: !Chained(t, |t|, b)
  {
    EmptyDirectory(t, |t|);
  }

  lemma {:induction false} EmptyDirectory(t: seq<FileEntry>, n: nat)
    requires n <= |t| && forall i :: 0 <= i < |t| ==> t[i] == EMPTY_ENTRY
    ensures DirectoryOf(t, n) == map[]
  {
    if n > 0 {
      EmptyDirectory(t, n - 1);
    }
  }

  /** Formatting a device and mounting it succeeds and gives the fresh volume. */
  method FormatAndMount(disk: array<Byte>, bdBlockSize: nat) returns (info: SfsInfo)
    requires 1 <= Layout(disk.Length).partitionSize < MAX_PARTITION
    requires BLOCK_SIZE <= bdBlockSize && bdBlockSize % ENTRY_SIZE == 0
    requires bdBlockSize + BLOCK_SIZE <= WORD_LIMIT && disk.Length % bdBlockSize == 0
    modifies disk
    ensures info.Valid() && Formatted(disk[..]) && info.Model() == FreshVolume(disk[..])
    ensures Consistent(info.Model())
  {
    Format(disk);
    FormatEstablishes(disk[..]);
    info := new SfsInfo(disk, bdBlockSize);
    assert info.OnDisk() == Layout(disk.Length);
    var ret := info.InitBrowsing();
  }

  /** From format through any in-order run: the map is what a remount would rebuild, no block is
      shared, and the directory is the finite map the operations build from the empty one. */
  lemma WholeLife(d: seq<Byte>, ops: seq<Op>)
    requires Formatted(d)
    requires CallableRun(FreshVolume(d), ops) && InOrderRun(FreshVolume(d), ops)
    requires forall k :: 0 <= k < |ops| && ops[k].Create? ==> GoodName(ops[k].fn)
    ensures var v := Run(FreshVolume(d), ops);
            && Consistent(v)
            && UniqueNames(v.table)
            && Directory(v.table) == DirRun(map[], Layout(|d|).entryCount, ops)
  {
    FormatEstablishes(d);
    RemountAgreement(FreshVolume(d), ops);
    DirectoryRefinesMap(FreshVolume(d), ops);
  }
}
