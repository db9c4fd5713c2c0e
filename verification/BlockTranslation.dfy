/** Translation of (SFS block, byte offset) requests to blocks of the underlying device: the
    absolute-address version of November and the block-stepping version of October. */
module BlockTranslation {
  import opened SfsLayout

  /** Where a request goes: a byte range inside one device block, or one of the two errors. */
  datatype Location = Inside(devBlock: int, devOffset: int) | Straddling | Beyond

  // ---------- integer division ----------

  lemma ScaleLe(a: int, b: int, d: int)
    requires a <= b && d >= 0
    ensures a * d <= b * d
  {
    assert (b - a) * d >= 0;
  }

  lemma ScaledBelow(a: int, b: int, d: int)
    requires d > 0 && a * d < b * d
    ensures a < b
  {
    if b <= a {
      ScaleLe(b, a, d);
    }
  }

  lemma DivModUnique(x: int, q: int, r: int, d: int)
    requires d > 0 && x == q * d + r && 0 <= r < d
    ensures x / d == q && x % d == r
  {
    var p := x / d;
    assert (q + 1) * d == q * d + d && (p + 1) * d == p * d + d;
    ScaledBelow(p, q + 1, d);
    ScaledBelow(q, p + 1, d);
  }

  lemma ScaledSum(q: int, m: int, r: int, unit: int)
    ensures (q * m + r) * unit == q * (m * unit) + r * unit
  {
  }

  lemma ModOfMultiple(x: int, unit: int, d: int)
    requires unit > 0 && d > 0 && x % unit == 0 && d % unit == 0
    ensures x % d + unit <= d
  {
    var a, m := x / unit, d / unit;
    assert x == a * unit && d == m * unit;
    ScaledBelow(0, m, unit);
    var q, r := a / m, a % m;
    ScaledSum(q, m, r, unit);
    RemainderScaled(r, m, unit);
    DivModUnique(x, q, r * unit, d);
  }

  lemma RemainderScaled(r: int, m: int, unit: int)
    requires 0 <= r < m && unit > 0
    ensures 0 <= r * unit && r * unit + unit <= m * unit
  {
    ScaleLe(r + 1, m, unit);
    ScaleLe(0, r, unit);
    assert (r + 1) * unit == r * unit + unit;
  }

  /** The device block around an address inside a device of whole blocks lies in the device. */
  lemma WholeBlockFits(abs: nat, d: nat, devSize: nat)
    requires d > 0 && devSize % d == 0 && abs < devSize
    ensures (abs / d + 1) * d <= devSize
  {
    var q, n := abs / d, devSize / d;
    ScaledBelow(q, n, d);
    ScaleLe(q + 1, n, d);
  }

  // ---------- the two versions ----------

  const EIO := 5
  const EINVAL := 22

  /** The absolute 32-bit byte address of a request. */
  function Absolute(block: Word, offset: Word, blockSize: Word): Word {
    ToWord(block * blockSize + offset)
  }

  /** November: the absolute address is divided by the device's block size. */
  function Locate(abs: Word, len: Word, bdBlockSize: nat, devSize: nat): Location
    requires 0 < bdBlockSize && len + bdBlockSize <= WORD_LIMIT
  {
    if abs % bdBlockSize + len > bdBlockSize then Straddling
    else if (abs / bdBlockSize + 1) * bdBlockSize > devSize then Beyond
    else Inside(abs / bdBlockSize, abs % bdBlockSize)
  }

  /** In terms of the device block `k` that the address lies in: a request that runs over its end
      is refused first, then one whose block ends behind the device; any other goes to that block. */
  lemma LocateExactly(abs: Word, len: Word, d: nat, devSize: nat, k: nat)
    requires 0 < d && len + d <= WORD_LIMIT && k * d <= abs < (k + 1) * d
    ensures Locate(abs, len, d, devSize)
         == if abs + len > (k + 1) * d then Straddling
            else if (k + 1) * d > devSize then Beyond
            else Inside(k, abs - k * d)
  {
    assert (k + 1) * d == k * d + d;
    DivModUnique(abs, k, abs - k * d, d);
  }

  /** October: whole blocks are moved from the offset to the block number, which then names a
      device block directly. */
  function LocateOctober(block: Word, offset: Word, len: Word, blockSize: Word, bdBlockSize: nat, devSize: nat)
    : Location
    requires 0 < blockSize && len + blockSize <= WORD_LIMIT
  {
    var b, o := if offset >= blockSize then ToWord(block + offset / blockSize) else block, offset % blockSize;
    if o + len > blockSize then Straddling
    else if (b + 1) * bdBlockSize > devSize then Beyond
    else Inside(b, o)
  }

  lemma CarryBlocks(block: nat, offset: nat, bs: nat)
    requires bs > 0
    ensures (block * bs + offset) / bs == block + offset / bs
    ensures (block * bs + offset) % bs == offset % bs
    ensures block + offset / bs <= block * bs + offset
  {
    var q, r := offset / bs, offset % bs;
    assert block * bs + offset == (block + q) * bs + r;
    DivModUnique(block * bs + offset, block + q, r, bs);
    ScaleLe(1, bs, block + q);
  }

  lemma SameLocation(abs: Word, b: Word, o: Word, block: Word, offset: Word, len: Word, bs: Word, devSize: nat)
    requires 0 < bs && len + bs <= WORD_LIMIT
    requires abs == block * bs + offset && b == block + offset / bs && o == offset % bs
    requires abs / bs == b && abs % bs == o
    ensures Locate(Absolute(block, offset, bs), len, bs, devSize) == LocateOctober(block, offset, len, bs, bs, devSize)
  {
    assert Absolute(block, offset, bs) == abs;
    assert ToWord(b) == b;
    if offset < bs {
      DivModUnique(offset, 0, offset, bs);
    }
  }

  /** On a device whose blocks are SFS blocks the two versions send every request that does not
      overflow to the same place and refuse the same requests. */
  lemma VersionsAgree(block: Word, offset: Word, len: Word, bs: Word, devSize: nat)
    requires 0 < bs && len + bs <= WORD_LIMIT && block * bs + offset < WORD_LIMIT
    ensures Locate(Absolute(block, offset, bs), len, bs, devSize) == LocateOctober(block, offset, len, bs, bs, devSize)
  {
    CarryBlocks(block, offset, bs);
    SameLocation(block * bs + offset, block + offset / bs, offset % bs, block, offset, len, bs, devSize);
  }

  /** With the block size every formatter writes: the versions agree exactly when October's
      block lies below 2^23, or both refuse. */
  lemma VersionsAgreeExactly(block: Word, offset: Word, len: Word, devSize: nat)
    requires len + BLOCK_SIZE <= WORD_LIMIT
    ensures var b := ToWord(block + offset / BLOCK_SIZE);
            var same := Locate(Absolute(block, offset, BLOCK_SIZE), len, BLOCK_SIZE, devSize)
                     == LocateOctober(block, offset, len, BLOCK_SIZE, BLOCK_SIZE, devSize);
            same <==> b < WORD_BLOCKS || offset % BLOCK_SIZE + len > BLOCK_SIZE
                      || (b % WORD_BLOCKS + 1) * BLOCK_SIZE > devSize
  {
    WrappedAbsolute(block, offset);
  }

  const WORD_BLOCKS := 0x80_0000 // blocks in 2^32 bytes

  lemma WrappedBlock(sum: nat)
    ensures ToWord(sum) % WORD_BLOCKS == sum % WORD_BLOCKS
  {
    var k, b := sum / WORD_LIMIT, sum % WORD_LIMIT;
    DivModUnique(sum, k * BLOCK_SIZE + b / WORD_BLOCKS, b % WORD_BLOCKS, WORD_BLOCKS);
  }

  lemma WrappedSum(sum: nat, r: nat)
    requires r < BLOCK_SIZE
    ensures ToWord(sum * BLOCK_SIZE + r) == sum % WORD_BLOCKS * BLOCK_SIZE + r
  {
    var m, s := sum / WORD_BLOCKS, sum % WORD_BLOCKS;
    DivModUnique(sum * BLOCK_SIZE + r, m, s * BLOCK_SIZE + r, WORD_LIMIT);
  }

  lemma WrappedAbsolute(block: Word, offset: Word)
    ensures var abs, b := Absolute(block, offset, BLOCK_SIZE), ToWord(block + offset / BLOCK_SIZE);
            abs % BLOCK_SIZE == offset % BLOCK_SIZE && abs / BLOCK_SIZE == b % WORD_BLOCKS
  {
    var sum, r := block + offset / BLOCK_SIZE, offset % BLOCK_SIZE;
    WrappedSum(sum, r);
    WrappedBlock(sum);
    DivModUnique(sum % WORD_BLOCKS * BLOCK_SIZE + r, sum % WORD_BLOCKS, r, BLOCK_SIZE);
  }

  /** Entry `i` of the table is found at its own address exactly when that address fits in 32
      bits. The first entry that does not fit wraps to address 0, onto the superblock. */
  lemma EntryAddressExactly(i: nat)
    requires i * ENTRY_SIZE < WORD_LIMIT
    ensures Absolute(1, i * ENTRY_SIZE, BLOCK_SIZE) == BLOCK_SIZE + i * ENTRY_SIZE
            <==> BLOCK_SIZE + i * ENTRY_SIZE < WORD_LIMIT
    ensures i == 0x400_0000 - 8 ==> Absolute(1, i * ENTRY_SIZE, BLOCK_SIZE) == 0
  {
  }

  lemma AlignedAccess(a: Word, bd: nat, devSize: nat)
    requires 0 < bd && ENTRY_SIZE + bd <= WORD_LIMIT && bd % ENTRY_SIZE == 0 && devSize % bd == 0
    requires a % ENTRY_SIZE == 0 && a < devSize
    ensures Locate(a, ENTRY_SIZE, bd, devSize) == Inside(a / bd, a % bd)
  {
    ModOfMultiple(a, ENTRY_SIZE, bd);
    WholeBlockFits(a, bd, devSize);
  }

  lemma AbsoluteOfEntry(sb: SuperBlock, i: nat)
    requires Geometry(sb) && i < sb.entryCount
    ensures i * ENTRY_SIZE < WORD_LIMIT && 0 <= EntryAddr(sb, i) < WORD_LIMIT
    ensures Absolute(sb.entryTableBlockStart, i * ENTRY_SIZE, sb.blockSize) == EntryAddr(sb, i)
  {
    EntryAddrBounds(sb, i);
  }

  /** An access to an entry of a laid-out volume never straddles device blocks and never
      leaves the device, so neither error can occur. */
  lemma EntryIsInside(sb: SuperBlock, i: nat, bd: nat, devSize: nat)
    requires Geometry(sb) && i < sb.entryCount && sb.partitionSize * BLOCK_SIZE <= devSize
    requires 0 < bd && ENTRY_SIZE + bd <= WORD_LIMIT && bd % ENTRY_SIZE == 0 && devSize % bd == 0
    ensures i * ENTRY_SIZE < WORD_LIMIT && 0 <= EntryAddr(sb, i) < WORD_LIMIT
    ensures var a := EntryAddr(sb, i);
            && Absolute(sb.entryTableBlockStart, i * ENTRY_SIZE, sb.blockSize) == a
            && Locate(a, ENTRY_SIZE, bd, devSize) == Inside(a / bd, a % bd)
  {
    AbsoluteOfEntry(sb, i);
    EntryAddrBounds(sb, i);
    AlignedAccess(EntryAddr(sb, i), bd, devSize);
  }

  /** October's `read_from_real_sfs`, which moves whole blocks from `offset` to `block`. */
  method ReadOctober(disk: array<Byte>, bdBlockSize: nat, blockSize: Word, block0: Word, offset0: Word, len: Word)
    returns (ret: int, buf: seq<Byte>)
    requires 0 < blockSize <= bdBlockSize && len + blockSize <= WORD_LIMIT
    ensures match LocateOctober(block0, offset0, len, blockSize, bdBlockSize, disk.Length)
            case Straddling => ret == -EINVAL && buf == []
            case Beyond => ret == -EIO && buf == []
            case Inside(b, o) =>
              ret == 0 && 0 <= b * bdBlockSize + o && b * bdBlockSize + o + len <= disk.Length
              && buf == disk[b * bdBlockSize + o..b * bdBlockSize + o + len]
  {
    var block, offset := block0, offset0;
    if offset >= blockSize {
      block := ToWord(block + offset / blockSize);
      offset := offset % blockSize;
    } else {
      DivModUnique(offset, 0, offset, blockSize);
    }
    SmallWord(offset + len);
    if ToWord(offset + len) > blockSize {
      return -EINVAL, [];
    }
    if (block + 1) * bdBlockSize > disk.Length {
      return -EIO, [];
    }
    OctoberInside(block, offset, len, blockSize, bdBlockSize, disk.Length);
    buf := disk[block * bdBlockSize + offset..block * bdBlockSize + offset + len];
    return 0, buf;
  }

  lemma OctoberInside(b: nat, o: nat, len: nat, bs: nat, bd: nat, devSize: nat)
    requires o + len <= bs <= bd && (b + 1) * bd <= devSize
    ensures 0 <= b * bd + o && b * bd + o + len <= devSize
  {
    assert (b + 1) * bd == b * bd + bd;
    ScaleLe(0, b, bd);
  }
}
