/** On-disk layout of the Simula file system: machine words, the superblock, the 64-byte
    file entry, and how the entry table lies in the bytes of the device. */
module SfsLayout {

  // ---------- machine words ----------

  const WORD_LIMIT := 0x1_0000_0000

  type Byte = x: int | 0 <= x < 256

  /** `byte4_t`: a 32-bit unsigned word. */
  type Word = x: int | 0 <= x < WORD_LIMIT

  /** Conversion of any C integer to `byte4_t`, and the wrap-around of `byte4_t` arithmetic. */
  function ToWord(x: int): Word {
    x % WORD_LIMIT
  }

  lemma SmallWord(x: int)
    ensures 0 <= x < WORD_LIMIT ==> ToWord(x) == x
  {
  }

  const SFS_TYPE: Word := 0x13090D15
  const BLOCK_SIZE := 512
  const ENTRY_SIZE := 64
  const NAME_SIZE := 16

  /** `SIMULA_FS_DATA_BLOCK_CNT`: what the entry has left for block numbers. */
  const BLOCK_CNT := (ENTRY_SIZE - (NAME_SIZE + 3 * 4)) / 4

  datatype SuperBlock = SuperBlock(
    magic: Word,
    blockSize: Word,
    partitionSize: Word,
    entrySize: Word,
    entryTableSize: Word,
    entryTableBlockStart: Word,
    entryCount: Word,
    dataBlockStart: Word)

  datatype RawEntry = Entry(name: seq<Byte>, size: Word, timestamp: Word, perms: Word, blocks: seq<Word>)

  type FileEntry = e: RawEntry | |e.name| == NAME_SIZE && |e.blocks| == BLOCK_CNT
    witness Entry(Zeros(NAME_SIZE), 0, 0, 0, Zeros(BLOCK_CNT))

  function Zeros(n: nat): (s: seq<Byte>)
    ensures |s| == n
    ensures forall k :: 0 <= k < n ==> s[k] == 0
  {
    seq(n, _ => 0)
  }

  /** The entry `memset` to zero by the formatter and by removal. */
  const EMPTY_ENTRY: FileEntry := Entry(Zeros(NAME_SIZE), 0, 0, 0, Zeros(BLOCK_CNT))

  // ---------- words in bytes ----------

  function WordBytes(w: Word): (b: seq<Byte>)
    ensures |b| == 4
  {
    [w % 256, w / 256 % 256, w / 65536 % 256, w / 16777216]
  }

  function BytesWord(b: seq<Byte>): Word
    requires |b| == 4
  {
    (b[0] as int) + 256 * (b[1] as int) + 65536 * (b[2] as int) + 16777216 * (b[3] as int)
  }

  lemma BytesOfWord(w: Word)
    ensures BytesWord(WordBytes(w)) == w
  {
    DigitsOf(w);
  }

  /** The four bytes are the digits of the number to base 256. */
  lemma DigitsOf(w: int)
    requires 0 <= w < WORD_LIMIT
    ensures w == w % 256 + 256 * (w / 256 % 256) + 65536 * (w / 65536 % 256) + 16777216 * (w / 16777216)
  {
    var w1, w2 := w / 256, w / 65536;
    assert w2 == w1 / 256 && w / 16777216 == w2 / 256;
    assert w == 256 * w1 + w % 256 && w1 == 256 * w2 + w1 % 256 && w2 == 256 * (w2 / 256) + w2 % 256;
  }

  lemma WordBytesWord(b: seq<Byte>)
    requires |b| == 4
    ensures WordBytes(BytesWord(b)) == b
  {
    var b0: int, b1: int, b2: int, b3: int := b[0], b[1], b[2], b[3];
    LowDigit(b3, 0);
    LowDigit(b2, b3);
    LowDigit(b1, b2 + 256 * b3);
    LowDigit(b0, b1 + 256 * (b2 + 256 * b3));
    TwoDigits(BytesWord(b));
  }

  lemma LowDigit(b: int, rest: int)
    requires 0 <= b < 256
    ensures (b + 256 * rest) % 256 == b && (b + 256 * rest) / 256 == rest
  {
  }

  lemma TwoDigits(w: int)
    requires 0 <= w
    ensures w / 65536 == w / 256 / 256 && w / 16777216 == w / 256 / 256 / 256
  {
  }

  function EncodeWords(ws: seq<Word>): (b: seq<Byte>)
    ensures |b| == 4 * |ws|
  {
    if ws == [] then [] else WordBytes(ws[0]) + EncodeWords(ws[1..])
  }

  function DecodeWords(b: seq<Byte>): (ws: seq<Word>)
    requires |b| % 4 == 0
    ensures |ws| == |b| / 4
  {
    if b == [] then [] else [BytesWord(b[..4])] + DecodeWords(b[4..])
  }

  lemma {:induction false} DecodeEncodeWords(ws: seq<Word>)
    ensures DecodeWords(EncodeWords(ws)) == ws
  {
    if ws != [] {
      var b := EncodeWords(ws);
      BytesOfWord(ws[0]);
      assert b[..4] == WordBytes(ws[0]);
      assert b[4..] == EncodeWords(ws[1..]);
      DecodeEncodeWords(ws[1..]);
    }
  }

  lemma {:induction false} EncodeDecodeWords(b: seq<Byte>)
    requires |b| % 4 == 0
    ensures EncodeWords(DecodeWords(b)) == b
  {
    if b != [] {
      var ws := DecodeWords(b);
      assert ws[1..] == DecodeWords(b[4..]);
      EncodeDecodeWords(b[4..]);
      WordBytesWord(b[..4]);
    }
  }

  // ---------- entries and superblock in bytes ----------

  function EncodeEntry(e: FileEntry): (b: seq<Byte>)
    ensures |b| == ENTRY_SIZE
  {
    e.name + EncodeWords([e.size, e.timestamp, e.perms] + e.blocks)
  }

  function DecodeEntry(b: seq<Byte>): FileEntry
    requires |b| == ENTRY_SIZE
  {
    var ws := DecodeWords(b[NAME_SIZE..]);
    Entry(b[..NAME_SIZE], ws[0], ws[1], ws[2], ws[3..])
  }

  lemma DecodeEncodeEntry(e: FileEntry)
    ensures DecodeEntry(EncodeEntry(e)) == e
  {
    var ws := [e.size, e.timestamp, e.perms] + e.blocks;
    DecodeEncodeWords(ws);
    assert EncodeEntry(e)[..NAME_SIZE] == e.name;
    assert EncodeEntry(e)[NAME_SIZE..] == EncodeWords(ws);
    assert ws[3..] == e.blocks;
  }

  lemma EncodeDecodeEntry(b: seq<Byte>)
    requires |b| == ENTRY_SIZE
    ensures EncodeEntry(DecodeEntry(b)) == b
  {
    var ws := DecodeWords(b[NAME_SIZE..]);
    EncodeDecodeWords(b[NAME_SIZE..]);
    assert [ws[0], ws[1], ws[2]] + ws[3..] == ws;
    assert b[..NAME_SIZE] + b[NAME_SIZE..] == b;
  }

  function SuperBlockWords(sb: SuperBlock): seq<Word> {
    [sb.magic, sb.blockSize, sb.partitionSize, sb.entrySize, sb.entryTableSize,
     sb.entryTableBlockStart, sb.entryCount, sb.dataBlockStart]
  }

  function EncodeSuperBlock(sb: SuperBlock): (b: seq<Byte>)
    ensures |b| == BLOCK_SIZE
  {
    EncodeWords(SuperBlockWords(sb)) + Zeros(BLOCK_SIZE - 32)
  }

  function DecodeSuperBlock(b: seq<Byte>): SuperBlock
    requires |b| == BLOCK_SIZE
  {
    var ws := DecodeWords(b[..32]);
    SuperBlock(ws[0], ws[1], ws[2], ws[3], ws[4], ws[5], ws[6], ws[7])
  }

  lemma DecodeEncodeSuperBlock(sb: SuperBlock)
    ensures DecodeSuperBlock(EncodeSuperBlock(sb)) == sb
  {
    assert EncodeSuperBlock(sb)[..32] == EncodeWords(SuperBlockWords(sb));
    DecodeEncodeWords(SuperBlockWords(sb));
  }

  // ---------- the bytes at their offsets ----------

  /** The four bytes from `at` on are the little-endian digits of `w`. */
  predicate WordAt(b: seq<Byte>, at: nat, w: Word) {
    at + 4 <= |b| &&
    var b0: int, b1: int, b2: int, b3: int := b[at], b[at + 1], b[at + 2], b[at + 3];
    w == b0 + 256 * b1 + 65536 * b2 + 16777216 * b3
  }

  lemma BehindAWord(first: seq<Byte>, rest: seq<Byte>, at: nat, w: Word)
    requires |first| == 4 && WordAt(rest, at, w)
    ensures WordAt(first + rest, at + 4, w)
  {
  }

  lemma {:induction false} EncodedWordAt(ws: seq<Word>, k: nat)
    requires k < |ws|
    ensures WordAt(EncodeWords(ws), 4 * k, ws[k])
  {
    if k == 0 {
      DigitsOf(ws[0]);
    } else {
      EncodedWordAt(ws[1..], k - 1);
      BehindAWord(WordBytes(ws[0]), EncodeWords(ws[1..]), 4 * (k - 1), ws[k]);
    }
  }

  /** Where the fields of the superblock are; behind them everything is zero. */
  predicate SuperBlockAt(b: seq<Byte>, sb: SuperBlock) {
    && WordAt(b, 0, sb.magic) && WordAt(b, 4, sb.blockSize)
    && WordAt(b, 8, sb.partitionSize) && WordAt(b, 12, sb.entrySize)
    && WordAt(b, 16, sb.entryTableSize) && WordAt(b, 20, sb.entryTableBlockStart)
    && WordAt(b, 24, sb.entryCount) && WordAt(b, 28, sb.dataBlockStart)
    && forall k :: 32 <= k < |b| ==> b[k] == 0
  }

  lemma SuperBlockBytes(sb: SuperBlock)
    ensures SuperBlockAt(EncodeSuperBlock(sb), sb)
  {
    var ws := SuperBlockWords(sb);
    forall k | 0 <= k < 8
      ensures WordAt(EncodeSuperBlock(sb), 4 * k, ws[k])
    {
      EncodedWordAt(ws, k);
    }
    var b := EncodeSuperBlock(sb);
    assert WordAt(b, 4 * 0, ws[0]) && WordAt(b, 4 * 1, ws[1]) && WordAt(b, 4 * 2, ws[2]) && WordAt(b, 4 * 3, ws[3]);
    assert WordAt(b, 4 * 4, ws[4]) && WordAt(b, 4 * 5, ws[5]) && WordAt(b, 4 * 6, ws[6]) && WordAt(b, 4 * 7, ws[7]);
  }

  /** Where the fields of an entry are. */
  predicate EntryBytesAt(b: seq<Byte>, e: FileEntry) {
    && e.name <= b && WordAt(b, 16, e.size) && WordAt(b, 20, e.timestamp) && WordAt(b, 24, e.perms)
    && forall j :: 0 <= j < BLOCK_CNT ==> WordAt(b, 28 + 4 * j, e.blocks[j])
  }

  lemma EntryBytes(e: FileEntry)
    ensures EntryBytesAt(EncodeEntry(e), e)
  {
    forall k | 0 <= k < 3 + BLOCK_CNT
      ensures WordAt(EncodeEntry(e), 16 + 4 * k, ([e.size, e.timestamp, e.perms] + e.blocks)[k])
    {
      EncodedWordAt([e.size, e.timestamp, e.perms] + e.blocks, k);
    }
    var b, ws := EncodeEntry(e), [e.size, e.timestamp, e.perms] + e.blocks;
    assert WordAt(b, 16 + 4 * 0, ws[0]) && WordAt(b, 16 + 4 * 1, ws[1]) && WordAt(b, 16 + 4 * 2, ws[2]);
    forall j | 0 <= j < BLOCK_CNT
      ensures WordAt(b, 28 + 4 * j, e.blocks[j])
    {
      assert WordAt(b, 16 + 4 * (3 + j), ws[3 + j]);
    }
  }

  lemma {:induction false} DecodeZeroWords(n: nat)
    ensures DecodeWords(Zeros(4 * n)) == Zeros(n)
  {
    if n > 0 {
      var b := Zeros(4 * n);
      assert b[4..] == Zeros(4 * (n - 1));
      assert b[..4] == [0, 0, 0, 0];
      DecodeZeroWords(n - 1);
    }
  }

  lemma DecodeZeroEntry()
    ensures DecodeEntry(Zeros(ENTRY_SIZE)) == EMPTY_ENTRY
  {
    var b := Zeros(ENTRY_SIZE);
    assert b[NAME_SIZE..] == Zeros(4 * 12);
    assert b[..NAME_SIZE] == Zeros(NAME_SIZE);
    DecodeZeroWords(12);
    assert Zeros(12)[3..] == Zeros(BLOCK_CNT);
  }

  // ---------- names ----------

  /** The characters of a C string. */
  type Text = s: seq<Byte> | 0 !in s

  /** The C string held in a byte buffer: the bytes before the first NUL. */
  function CString(s: seq<Byte>): (n: Text)
    ensures n <= s
    ensures |n| < |s| ==> s[|n|] == 0
  {
    if s == [] || s[0] == 0 then [] else [s[0]] + CString(s[1..])
  }

  function Min(a: int, b: int): int {
    if a <= b then a else b
  }

  /** `strncpy(name, fn, 15)` followed by `name[15] = 0`. */
  function PadName(fn: Text): (name: seq<Byte>)
    ensures |name| == NAME_SIZE
  {
    var n := Min(|fn|, NAME_SIZE - 1);
    fn[..n] + Zeros(NAME_SIZE - n)
  }

  lemma {:induction false} CStringUnique(s: seq<Byte>, n: Text)
    requires n < s && s[|n|] == 0
    ensures CString(s) == n
  {
    if n != [] {
      assert s[0] == n[0];
      CStringUnique(s[1..], n[1..]);
    }
  }

  lemma PadNameIsTruncation(fn: Text)
    ensures CString(PadName(fn)) == fn[..Min(|fn|, NAME_SIZE - 1)]
    ensures PadName(fn)[NAME_SIZE - 1] == 0
  {
    CStringUnique(PadName(fn), fn[..Min(|fn|, NAME_SIZE - 1)]);
  }

  // ---------- geometry and the table in the device's bytes ----------

  /** What the formatter lays out: superblock, then the table, then the data blocks; every
      table byte has a 32-bit address, and block numbers fit a C `int`. */
  predicate Geometry(sb: SuperBlock) {
    && sb.magic == SFS_TYPE
    && sb.blockSize == BLOCK_SIZE
    && sb.entrySize == ENTRY_SIZE
    && sb.entryTableBlockStart == 1
    && sb.entryCount * ENTRY_SIZE == sb.entryTableSize * BLOCK_SIZE
    && sb.dataBlockStart == sb.entryTableBlockStart + sb.entryTableSize
    && sb.dataBlockStart <= sb.partitionSize < 0x8000_0000
    && sb.dataBlockStart * BLOCK_SIZE <= WORD_LIMIT
  }

  /** The bytes `d` hold all blocks of a partition laid out by `sb`. */
  predicate Holds(d: seq<Byte>, sb: SuperBlock) {
    Geometry(sb) && sb.partitionSize * BLOCK_SIZE <= |d|
  }

  function EntryAddr(sb: SuperBlock, i: int): int {
    sb.entryTableBlockStart * BLOCK_SIZE + i * ENTRY_SIZE
  }

  lemma EntryAddrBounds(sb: SuperBlock, i: int)
    requires Geometry(sb) && 0 <= i < sb.entryCount
    ensures EntryAddr(sb, i) == BLOCK_SIZE + i * ENTRY_SIZE
    ensures EntryAddr(sb, i) + ENTRY_SIZE <= sb.dataBlockStart * BLOCK_SIZE <= sb.partitionSize * BLOCK_SIZE
    ensures EntryAddr(sb, i) + ENTRY_SIZE <= WORD_LIMIT
  {
  }

  function EntryAt(d: seq<Byte>, sb: SuperBlock, i: nat): FileEntry
    requires Holds(d, sb) && i < sb.entryCount
  {
    DecodeEntry(d[EntryAddr(sb, i)..EntryAddr(sb, i) + ENTRY_SIZE])
  }

  /** The first `n` entries of the table. */
  function Entries(d: seq<Byte>, sb: SuperBlock, n: nat): (t: seq<FileEntry>)
    requires Holds(d, sb) && n <= sb.entryCount
    ensures |t| == n
  {
    if n == 0 then [] else Entries(d, sb, n - 1) + [EntryAt(d, sb, n - 1)]
  }

  /** The entry table, as a sequence of entries. */
  function TableOf(d: seq<Byte>, sb: SuperBlock): (t: seq<FileEntry>)
    requires Holds(d, sb)
    ensures |t| == sb.entryCount
  {
    Entries(d, sb, sb.entryCount)
  }

  lemma {:induction false} EntriesAt(d: seq<Byte>, sb: SuperBlock, n: nat, i: nat)
    requires Holds(d, sb) && i < n <= sb.entryCount
    ensures Entries(d, sb, n)[i] == EntryAt(d, sb, i)
  {
    if i < n - 1 {
      EntriesAt(d, sb, n - 1, i);
    }
  }

  /** `memcpy` into the middle of a buffer. */
  function Splice(d: seq<Byte>, at: nat, bytes: seq<Byte>): (r: seq<Byte>)
    requires at + |bytes| <= |d|
    ensures |r| == |d|
    ensures forall k :: 0 <= k < |d| ==> r[k] == if at <= k < at + |bytes| then bytes[k - at] else d[k]
  {
    d[..at] + bytes + d[at + |bytes|..]
  }

  /** `memcpy`, byte by byte. */
  method CopyIn(dst: array<Byte>, at: nat, src: seq<Byte>)
    requires at + |src| <= dst.Length
    modifies dst
    ensures dst[..] == Splice(old(dst[..]), at, src)
  {
    for k := 0 to |src|
      invariant dst[..] == Splice(old(dst[..]), at, src[..k])
    {
      dst[at + k] := src[k];
    }
    assert src[..|src|] == src;
  }

  lemma SpliceReadBack(d: seq<Byte>, at: nat, bytes: seq<Byte>)
    requires at + |bytes| <= |d|
    ensures Splice(d, at, bytes)[at..at + |bytes|] == bytes
  {
  }

  lemma SpliceElsewhere(d: seq<Byte>, at: nat, bytes: seq<Byte>, lo: nat, hi: nat)
    requires at + |bytes| <= |d| && lo <= hi <= |d|
    requires hi <= at || at + |bytes| <= lo
    ensures Splice(d, at, bytes)[lo..hi] == d[lo..hi]
  {
  }

  /** Device bytes outside the entry table are the same in `d` and `d'`. */
  predicate SameOutsideTable(sb: SuperBlock, d: seq<Byte>, d': seq<Byte>) {
    && |d| == |d'|
    && forall k :: 0 <= k < |d| && !(EntryAddr(sb, 0) <= k < EntryAddr(sb, sb.entryCount)) ==> d'[k] == d[k]
  }

  lemma EntryAfterStore(d: seq<Byte>, sb: SuperBlock, i: nat, e: FileEntry, d': seq<Byte>, k: nat)
    requires Holds(d, sb) && i < sb.entryCount && k < sb.entryCount && EntryAddr(sb, i) + ENTRY_SIZE <= |d|
    requires d' == Splice(d, EntryAddr(sb, i), EncodeEntry(e))
    ensures TableOf(d', sb)[k] == if k == i then e else TableOf(d, sb)[k]
  {
    EntriesAt(d, sb, sb.entryCount, k);
    EntriesAt(d', sb, sb.entryCount, k);
    if k == i {
      SpliceReadBack(d, EntryAddr(sb, i), EncodeEntry(e));
      DecodeEncodeEntry(e);
    } else {
      SpliceElsewhere(d, EntryAddr(sb, i), EncodeEntry(e), EntryAddr(sb, k), EntryAddr(sb, k) + ENTRY_SIZE);
    }
  }

  /** Storing one encoded entry updates exactly that element of the table, and nothing else
      on the device. */
  lemma StoreEntry(d: seq<Byte>, sb: SuperBlock, i: nat, e: FileEntry)
    requires Holds(d, sb) && i < sb.entryCount
    ensures EntryAddr(sb, i) + ENTRY_SIZE <= |d|
    ensures var d' := Splice(d, EntryAddr(sb, i), EncodeEntry(e));
            && TableOf(d', sb) == TableOf(d, sb)[i := e]
            && SameOutsideTable(sb, d, d')
  {
    var a := EntryAddr(sb, i);
    var d' := Splice(d, a, EncodeEntry(e));
    forall k | 0 <= k < sb.entryCount
      ensures TableOf(d', sb)[k] == TableOf(d, sb)[i := e][k]
    {
      EntryAfterStore(d, sb, i, e, d', k);
    }
  }

  /** Bytes outside the table do not influence it. */
  lemma TableUntouched(d: seq<Byte>, d': seq<Byte>, sb: SuperBlock)
    requires Holds(d, sb) && |d'| == |d|
    requires forall k :: EntryAddr(sb, 0) <= k < EntryAddr(sb, sb.entryCount) ==> d'[k] == d[k]
    ensures TableOf(d', sb) == TableOf(d, sb)
  {
    forall i | 0 <= i < sb.entryCount
      ensures TableOf(d', sb)[i] == TableOf(d, sb)[i]
    {
      EntriesAt(d, sb, sb.entryCount, i);
      EntriesAt(d', sb, sb.entryCount, i);
      var a := EntryAddr(sb, i);
      assert d'[a..a + ENTRY_SIZE] == d[a..a + ENTRY_SIZE];
    }
  }
}
