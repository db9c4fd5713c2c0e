/** The mounted volume as a value: superblock, entry table and `used_blocks` map, and what each
    file-system operation does to it. The methods of `SfsKernel` are proved against these
    functions; the theorems about whole runs are proved about them. */
module SfsVolume {
  import opened SfsLayout

  datatype Option<T> = None | Some(value: T)

  datatype Volume = Volume(sb: SuperBlock, table: seq<FileEntry>, used: seq<Byte>)

  // ---------- entries ----------

  predicate Live(e: FileEntry) {
    e.name[0] != 0
  }

  function Name(e: FileEntry): Text {
    CString(e.name)
  }

  /** The number of block numbers before the first zero: where mounting and removal stop. */
  function ChainLen(s: seq<Word>): (n: nat)
    ensures n <= |s|
    ensures forall k :: 0 <= k < n ==> s[k] != 0
    ensures n < |s| ==> s[n] == 0
  {
    if s == [] || s[0] == 0 then 0 else 1 + ChainLen(s[1..])
  }

  function Chain(e: FileEntry): seq<Word> {
    e.blocks[..ChainLen(e.blocks)]
  }

  /** No block number follows a zero. */
  predicate HoleFree(e: FileEntry) {
    forall j :: ChainLen(e.blocks) <= j < BLOCK_CNT ==> e.blocks[j] == 0
  }

  predicate HoldsNothing(e: FileEntry) {
    forall j :: 0 <= j < BLOCK_CNT ==> e.blocks[j] == 0
  }

  predicate SafeRef(sb: SuperBlock, b: Word) {
    b == 0 || sb.dataBlockStart <= b < sb.partitionSize
  }

  /** What the C code needs of an entry to stay inside its arrays. */
  predicate SafeEntry(sb: SuperBlock, e: FileEntry) {
    && e.name[NAME_SIZE - 1] == 0
    && forall j :: 0 <= j < BLOCK_CNT ==> SafeRef(sb, e.blocks[j])
  }

  predicate SafeTable(sb: SuperBlock, t: seq<FileEntry>) {
    forall i :: 0 <= i < |t| ==> SafeEntry(sb, t[i])
  }

  predicate WellFormed(v: Volume) {
    && Geometry(v.sb)
    && |v.table| == v.sb.entryCount
    && |v.used| == v.sb.partitionSize
    && SafeTable(v.sb, v.table)
  }

  // ---------- searches ----------

  function FirstFree(used: seq<Byte>, from: nat): (r: Option<nat>)
    requires from <= |used|
    ensures r.Some? ==> from <= r.value < |used| && used[r.value] == 0
    decreases |used| - from
  {
    if from == |used| then None
    else if used[from] == 0 then Some(from)
    else FirstFree(used, from + 1)
  }

  lemma {:induction false} FirstFreeIsLeast(used: seq<Byte>, from: nat)
    requires from <= |used|
    ensures var r := FirstFree(used, from);
            forall k :: from <= k < (if r.Some? then r.value else |used|) ==> used[k] != 0
    decreases |used| - from
  {
    if from < |used| && used[from] != 0 {
      FirstFreeIsLeast(used, from + 1);
    }
  }

  predicate Named(e: FileEntry, fn: Text) {
    Live(e) && Name(e) == fn
  }

  /** The slot `sfs_lookup` finds: the least live one of that name. */
  function FindName(t: seq<FileEntry>, fn: Text, from: nat): (r: Option<nat>)
    requires from <= |t|
    ensures r.Some? ==> from <= r.value < |t| && Named(t[r.value], fn)
    decreases |t| - from
  {
    if from == |t| then None
    else if Named(t[from], fn) then Some(from)
    else FindName(t, fn, from + 1)
  }

  lemma {:induction false} FindNameIsLeast(t: seq<FileEntry>, fn: Text, from: nat)
    requires from <= |t|
    ensures var r := FindName(t, fn, from);
            forall i :: from <= i < (if r.Some? then r.value else |t|) ==> !Named(t[i], fn)
    decreases |t| - from
  {
    if from < |t| && !Named(t[from], fn) {
      FindNameIsLeast(t, fn, from + 1);
    }
  }

  /** The least slot without a name. */
  function FindDead(t: seq<FileEntry>, from: nat): (r: Option<nat>)
    requires from <= |t|
    ensures r.Some? ==> from <= r.value < |t| && !Live(t[r.value])
    decreases |t| - from
  {
    if from == |t| then None
    else if !Live(t[from]) then Some(from)
    else FindDead(t, from + 1)
  }

  lemma {:induction false} FindDeadIsLeast(t: seq<FileEntry>, from: nat)
    requires from <= |t|
    ensures var r := FindDead(t, from);
            forall i :: from <= i < (if r.Some? then r.value else |t|) ==> Live(t[i])
    decreases |t| - from
  {
    if from < |t| && Live(t[from]) {
      FindDeadIsLeast(t, from + 1);
    }
  }

  // ---------- the map of used blocks ----------

  /** `b` is in the chain of one of the first `n` entries that carry a name. */
  predicate Chained(t: seq<FileEntry>, n: nat, b: int)
    requires n <= |t|
  {
    exists i :: 0 <= i < n && Live(t[i]) && b in Chain(t[i])
  }

  lemma ChainedNext(t: seq<FileEntry>, n: nat, b: int)
    requires n < |t|
    ensures Chained(t, n + 1, b) <==> Chained(t, n, b) || (Live(t[n]) && b in Chain(t[n]))
  {
  }

  /** The map that mounting builds from the table. */
  function MountedMap(sb: SuperBlock, t: seq<FileEntry>): (m: seq<Byte>)
    ensures |m| == sb.partitionSize
  {
    seq(sb.partitionSize, b => if b < sb.dataBlockStart || Chained(t, |t|, b) then 1 else 0)
  }

  /** The map with the data blocks listed in `gone` marked free. */
  function Clear(used: seq<Byte>, gone: seq<Word>): (r: seq<Byte>)
    ensures |r| == |used|
    ensures forall b :: 0 <= b < |used| ==> r[b] == if b != 0 && b in gone then 0 else used[b]
  {
    seq(|used|, b requires 0 <= b < |used| => if b != 0 && b in gone then 0 else used[b])
  }

  lemma ClearOneMore(used: seq<Byte>, gone: seq<Word>, b: Word)
    requires 0 < b < |used|
    ensures Clear(used, gone + [b]) == Clear(used, gone)[b := 0]
  {
  }

  lemma ClearNone(used: seq<Byte>)
    ensures Clear(used, []) == used
  {
  }

  lemma ClearZero(used: seq<Byte>, gone: seq<Word>)
    ensures Clear(used, gone + [0]) == Clear(used, gone)
  {
  }

  /** One step of putting back the blocks of an entry from index `n` on. */
  lemma ClearUpTo(used: seq<Byte>, e: FileEntry, n: nat, i: nat)
    requires n <= i < BLOCK_CNT && (e.blocks[i] == 0 || e.blocks[i] < |used|)
    ensures var before := Clear(used, e.blocks[n..i]);
            Clear(used, e.blocks[n..i + 1]) == if e.blocks[i] == 0 then before else before[e.blocks[i] := 0]
  {
    assert e.blocks[n..i + 1] == e.blocks[n..i] + [e.blocks[i]];
    if e.blocks[i] == 0 {
      ClearZero(used, e.blocks[n..i]);
    } else {
      ClearOneMore(used, e.blocks[n..i], e.blocks[i]);
    }
  }

  // ---------- operations ----------

  function NewEntry(fn: Text, perms: int, now: int): FileEntry {
    Entry(PadName(fn), 0, ToWord(now), ToWord(perms), Zeros(BLOCK_CNT))
  }

  /** The slot a new file gets, unless the name is taken or no slot is free. */
  function CreateSlot(t: seq<FileEntry>, fn: Text): Option<nat> {
    if FindName(t, fn, 0).Some? then None else FindDead(t, 0)
  }

  function AfterCreate(v: Volume, fn: Text, perms: int, now: int): Volume {
    var slot := CreateSlot(v.table, fn);
    if slot.None? then v else v.(table := v.table[slot.value := NewEntry(fn, perms, now)])
  }

  /** Entry `i` is replaced and the blocks `gone` are put back. */
  function Release(v: Volume, i: nat, e: FileEntry, gone: seq<Word>): Volume
    requires i < |v.table|
  {
    v.(table := v.table[i := e], used := Clear(v.used, gone))
  }

  function AfterRemove(v: Volume, fn: Text): Volume {
    var slot := FindName(v.table, fn, 0);
    if slot.None? then v else Release(v, slot.value, EMPTY_ENTRY, Chain(v.table[slot.value]))
  }

  /** The result of asking for the device block behind a file block. */
  datatype Mapping = Mapped(phys: Word) | NoSpace | NotMapped

  function MapBlock(v: Volume, i: nat, iblock: nat, create: bool): (Volume, Mapping)
    requires i < |v.table| && v.sb.dataBlockStart <= |v.used| < WORD_LIMIT
  {
    if iblock >= BLOCK_CNT then (v, NoSpace)
    else if v.table[i].blocks[iblock] != 0 then (v, Mapped(v.table[i].blocks[iblock]))
    else if !create then (v, NotMapped)
    else
      var b := FirstFree(v.used, v.sb.dataBlockStart);
      if b.None? then (v, NoSpace) else (Allocate(v, i, iblock, b.value), Mapped(b.value))
  }

  /** The table with block number `b` stored at index `j` of entry `i`. */
  function Filled(t: seq<FileEntry>, i: nat, j: nat, b: Word): (r: seq<FileEntry>)
    requires i < |t| && j < BLOCK_CNT
    ensures |r| == |t|
  {
    t[i := t[i].(blocks := t[i].blocks[j := b])]
  }

  function Allocate(v: Volume, i: nat, j: nat, b: nat): Volume
    requires i < |v.table| && j < BLOCK_CNT && b < |v.used| < WORD_LIMIT
  {
    v.(table := Filled(v.table, i, j, b), used := v.used[b := 1])
  }

  /** The first block index a file of this size does not keep, in 32-bit arithmetic. */
  function KeptBlocks(size: Word): nat {
    ToWord(size + BLOCK_SIZE - 1) / BLOCK_SIZE
  }

  function Or(o: Option<int>, w: Word): Word {
    if o.Some? then ToWord(o.value) else w
  }

  /** The entry after the attributes that were passed are stored and the tail is cut off.
      A negative `perms` passes the test for at most 07. */
  function Updated(e: FileEntry, size: Option<int>, timestamp: Option<int>, perms: Option<int>): FileEntry {
    var size' := Or(size, e.size);
    e.(size := size',
       timestamp := Or(timestamp, e.timestamp),
       perms := if perms.Some? && perms.value <= 7 then ToWord(perms.value) else e.perms,
       blocks := seq(BLOCK_CNT, j requires 0 <= j < BLOCK_CNT =>
         if j < KeptBlocks(size') then e.blocks[j] else 0))
  }

  function AfterUpdate(v: Volume, i: nat, size: Option<int>, timestamp: Option<int>, perms: Option<int>): Volume
    requires i < |v.table|
  {
    var e := v.table[i];
    Release(v, i, Updated(e, size, timestamp, perms),
            e.blocks[Min(KeptBlocks(Or(size, e.size)), BLOCK_CNT)..])
  }

  function AfterMount(v: Volume): Volume {
    v.(used := MountedMap(v.sb, v.table))
  }

  // ---------- runs ----------

  datatype Op =
    | Create(fn: Text, perms: int, now: int)
    | Remove(fn: Text)
    | GetBlock(slot: nat, iblock: nat, create: bool)
    | Update(slot: nat, size: Option<int>, timestamp: Option<int>, newPerms: Option<int>)
    | Remount

  /** Inode numbers come from earlier creates and lookups, so they name a slot of the table. */
  predicate Callable(v: Volume, op: Op) {
    WellFormed(v) && match op
      case GetBlock(slot, _, _) => slot < |v.table|
      case Update(slot, _, _, _) => slot < |v.table|
      case _ => true
  }

  function Apply(v: Volume, op: Op): Volume
    requires Callable(v, op)
  {
    match op
    case Create(fn, perms, now) => AfterCreate(v, fn, perms, now)
    case Remove(fn) => AfterRemove(v, fn)
    case GetBlock(slot, iblock, create) => MapBlock(v, slot, iblock, create).0
    case Update(slot, size, timestamp, perms) => AfterUpdate(v, slot, size, timestamp, perms)
    case Remount => AfterMount(v)
  }
}
