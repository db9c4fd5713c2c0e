/** What a user-space write guarantees: the round trip with a read, every other file unchanged,
    and exactly when the map still agrees with the table. */
module BrowseTheorems {
  import opened SfsLayout
  import opened BlockTranslation
  import opened SfsVolume
  import opened SfsOwnership
  import opened SfsRuns
  import opened SfsConservation
  import opened SfsTruncation
  import opened SfsContent
  import opened BrowseData

  /** The map after the old chain of entry `i` was put back. */
  function PutBack(v: Volume, i: nat): seq<Byte>
    requires i < |v.table|
  {
    Clear(v.used, Chain(v.table[i]))
  }

  function Taken(v: Volume, i: nat, len: nat): seq<Word>
    requires WellFormed(v) && i < |v.table|
  {
    NewBlocks(PutBack(v, i), v.sb.dataBlockStart, len)
  }

  lemma TakenIsFree(v: Volume, i: nat, len: nat)
    requires WellFormed(v) && i < |v.table|
    ensures var u, news := PutBack(v, i), Taken(v, i, len);
            && FreeIn(u, v.sb.dataBlockStart, news) && Distinct(news)
            && forall b :: b in news ==> v.sb.dataBlockStart <= b < v.sb.partitionSize && u[b] == 0
  {
    var u, ds := PutBack(v, i), v.sb.dataBlockStart;
    TakeFreeTakes(u, ds, BlocksNeeded(StoredSize(u, ds, len)));
  }

  // ---------- round trip ----------

  lemma NewBlocksComeFirst(before: seq<Word>, news: seq<Word>, failed: bool)
    requires |before| == BLOCK_CNT && |news| + (if failed then 1 else 0) <= BLOCK_CNT
    requires forall k :: 0 <= k < |news| ==> news[k] != 0
    ensures news <= OverBlocks(before, news, failed)
    ensures |news| <= ChainLen(OverBlocks(before, news, failed))
  {
    var r := OverBlocks(before, news, failed);
    assert forall k :: 0 <= k < |news| ==> r[k] == news[k];
    var n := ChainLen(r);
    assert n < |r| ==> r[n] == 0;
  }

  lemma ReadsWhatIsStored(d: seq<Byte>, e: FileEntry, news: seq<Word>, data: seq<Byte>)
    requires Stored(d, news, data) && news <= e.blocks && |news| <= ChainLen(e.blocks) && e.size == |data|
    ensures OnDevice(d, e) && ReadBack(d, e) == data
  {
    assert ReadableSize(e) == |data|;
    assert forall k :: 0 <= k < |news| ==> e.blocks[k] == news[k];
    assert OnDevice(d, e);
    var r := ReadBack(d, e);
    forall x | 0 <= x < |data|
      ensures r[x] == data[x]
    {
      assert FileByte(d, news, x, data[x]);
      assert e.blocks[x / BLOCK_SIZE] == news[x / BLOCK_SIZE];
    }
  }

  lemma {:induction false} SameNameSameSlot(t: seq<FileEntry>, i: nat, e: FileEntry, fn: Text, from: nat)
    requires i < |t| && e.name == t[i].name && from <= |t|
    ensures FindName(t[i := e], fn, from) == FindName(t, fn, from)
    decreases |t| - from
  {
    if from < |t| {
      SameNameSameSlot(t, i, e, fn, from + 1);
    }
  }

  /** After a write the file is still found, has the stored size, and reads back as exactly the
      input up to nine blocks or up to the free space, whichever is less; this includes a last
      allocation that fails and old block numbers left behind the new ones. */
  lemma WriteThenRead(v: Volume, d: seq<Byte>, fn: Text, i: nat, input: seq<Byte>, now: int, v': Volume, d': seq<Byte>)
    requires WellFormed(v) && FindName(v.table, fn, 0) == Some(i)
    requires Wrote(v, d, i, input, now, v', d')
    ensures FindName(v'.table, fn, 0) == Some(i)
    ensures var e, free := v'.table[i], FreeBlocks(PutBack(v, i), v.sb.dataBlockStart);
            && e.size == Min(|input|, BLOCK_SIZE * Min(BLOCK_CNT, |free|))
            && (Reaches(PutBack(v, i), v.sb.dataBlockStart, |input|) ==> Readable(v.sb, e))
            && OnDevice(d', e)
            && ReadBack(d', e) == input[..e.size]
            && e.perms == v.table[i].perms && e.name == v.table[i].name && e.timestamp == ToWord(now)
  {
    var e, e' := v.table[i], v'.table[i];
    var u, ds := PutBack(v, i), v.sb.dataBlockStart;
    var news := Taken(v, i, |input|);
    TakenIsFree(v, i, |input|);
    SameNameSameSlot(v.table, i, e', fn, 0);
    NewBlocksComeFirst(e.blocks, news, PartialFails(u, ds, |input|));
    ReadsWhatIsStored(d', e', news, input[..e'.size]);
    forall k | 0 <= k < ChainLen(e'.blocks) && k * BLOCK_SIZE < e'.size
      ensures e'.blocks[k] < v.sb.partitionSize && e'.blocks[k] in news
    {
      assert e'.blocks[k] == news[k];
    }
  }

  // ---------- other files ----------

  lemma OthersKeepTheirBlocks(v: Volume, i: nat, len: nat, k: nat, b: Word)
    requires Exclusive(v) && i < |v.table| && k < |v.table| && k != i && b in Chain(v.table[k])
    ensures b !in Taken(v, i, len) && v.sb.dataBlockStart <= b < v.sb.partitionSize
  {
    TakenIsFree(v, i, len);
    var c, c' := Chain(v.table[i]), Chain(v.table[k]);
    var j :| 0 <= j < |c'| && c'[j] == b;
    assert Ref(v.table, k, j) == b && b != 0;
    RefInData(v, k, j);
    forall m | 0 <= m < |c|
      ensures c[m] != b
    {
      assert Ref(v.table, i, m) == c[m];
    }
    assert PutBack(v, i)[b] == v.used[b];
  }

  lemma SameBytesSameRead(d: seq<Byte>, d': seq<Byte>, e: FileEntry)
    requires OnDevice(d, e) && |d'| == |d|
    requires forall k :: 0 <= k < ChainLen(e.blocks) && k * BLOCK_SIZE < e.size ==>
               BlockAt(d', e.blocks[k]) == BlockAt(d, e.blocks[k])
    ensures OnDevice(d', e) && ReadBack(d', e) == ReadBack(d, e)
  {
    var r, r' := ReadBack(d, e), ReadBack(d', e);
    forall x | 0 <= x < |r|
      ensures r'[x] == r[x]
    {
      var k := x / BLOCK_SIZE;
      assert BlockAt(d', e.blocks[k])[x % BLOCK_SIZE] == BlockAt(d, e.blocks[k])[x % BLOCK_SIZE];
    }
  }

  /** A write leaves every other entry as it was, and every other file reads back the same. */
  lemma WriteKeepsOtherFiles(v: Volume, d: seq<Byte>, i: nat, input: seq<Byte>, now: int,
                             v': Volume, d': seq<Byte>, k: nat)
    requires Exclusive(v) && i < |v.table| && v.sb.partitionSize * BLOCK_SIZE <= |d|
    requires Wrote(v, d, i, input, now, v', d')
    requires k < |v.table| && k != i
    ensures v'.table[k] == v.table[k]
    ensures OnDevice(d, v.table[k]) && OnDevice(d', v.table[k])
    ensures ReadBack(d', v.table[k]) == ReadBack(d, v.table[k])
  {
    var e := v.table[k];
    forall m | 0 <= m < ChainLen(e.blocks)
      ensures e.blocks[m] < v.sb.partitionSize && BlockAt(d', e.blocks[m]) == BlockAt(d, e.blocks[m])
    {
      assert Chain(e)[m] == e.blocks[m];
      OthersKeepTheirBlocks(v, i, |input|, k, e.blocks[m]);
    }
    SameBytesSameRead(d, d', e);
  }

  // ---------- map and table ----------

  /** The number of blocks that a write of `len` bytes uses. */
  function Uses(v: Volume, i: nat, len: nat): nat
    requires i < |v.table|
  {
    BlocksNeeded(StoredSize(PutBack(v, i), v.sb.dataBlockStart, len))
  }

  lemma TakesWhatItUses(v: Volume, i: nat, len: nat)
    requires WellFormed(v) && i < |v.table|
    ensures |Taken(v, i, len)| == Uses(v, i, len) <= BLOCK_CNT
  {
    TakeFreeTakes(PutBack(v, i), v.sb.dataBlockStart, Uses(v, i, len));
  }

  /** The block numbers that a write leaves behind the new ones. */
  function Stale(v: Volume, i: nat, len: nat): (s: seq<Word>)
    requires i < |v.table|
  {
    var c, n := Chain(v.table[i]), Uses(v, i, len);
    if n <= |c| then c[n..] else []
  }

  lemma ChainAfterWrite(v: Volume, i: nat, len: nat, e': FileEntry)
    requires Consistent(v) && i < |v.table| && |Taken(v, i, len)| == Uses(v, i, len) <= BLOCK_CNT
    requires e'.blocks == OverBlocks(v.table[i].blocks, Taken(v, i, len), false)
    ensures Chain(e') == Taken(v, i, len) + Stale(v, i, len)
  {
    var e, news := v.table[i], Taken(v, i, len);
    TakenIsFree(v, i, len);
    assert TidyEntry(e);
    var n, c := |news|, ChainLen(e.blocks);
    var m := if n <= c then c else n;
    assert forall k :: 0 <= k < m ==> e'.blocks[k] != 0;
    assert m < BLOCK_CNT ==> e'.blocks[m] == 0;
    assert ChainLen(e'.blocks) == m;
  }

  /** What mounting the written table would mark. */
  lemma MountAfterWrite(v: Volume, i: nat, len: nat, t': seq<FileEntry>, b: nat)
    requires Consistent(v) && i < |v.table| && Live(v.table[i]) && b < v.sb.partitionSize
    requires |t'| == |v.table| && forall k :: 0 <= k < |t'| && k != i ==> t'[k] == v.table[k]
    requires Live(t'[i]) && Chain(t'[i]) == Taken(v, i, len) + Stale(v, i, len)
    ensures var news := Taken(v, i, len);
            (b < v.sb.dataBlockStart || Chained(t', |t'|, b)) <==>
            (b in news || b in Stale(v, i, len) || (v.used[b] == 1 && b !in Chain(v.table[i])))
  {
    var t, c := v.table, Chain(v.table[i]);
    TakenIsFree(v, i, len);
    assert v.used[b] == 1 <==> b < v.sb.dataBlockStart || Chained(t, |t|, b);
    ChainIsDistinct(v, i);
    if k :| 0 <= k < |t| && k != i && Live(t[k]) && b in Chain(t[k]) {
      ChainsAreDisjoint(v, k, i, b);
      assert Live(t'[k]) && b in Chain(t'[k]);
    }
    if k :| 0 <= k < |t'| && Live(t'[k]) && b in Chain(t'[k]) {
      if k != i {
        ChainsAreDisjoint(v, k, i, b);
        assert Live(t[k]) && b in Chain(t[k]);
      }
    }
  }

  lemma WrittenMap(v: Volume, i: nat, len: nat, b: nat)
    requires Consistent(v) && i < |v.table| && b < v.sb.partitionSize
    ensures var x := MarkAll(PutBack(v, i), Taken(v, i, len))[b];
            x == if b in Taken(v, i, len) || (b !in Chain(v.table[i]) && v.used[b] == 1) then 1 else 0
  {
    var m := MountedMap(v.sb, v.table);
    assert v.used[b] == m[b];
    ChainIsDistinct(v, i);
  }

  lemma WrittenIsWellFormed(v: Volume, d: seq<Byte>, i: nat, input: seq<Byte>, now: int, v': Volume, d': seq<Byte>)
    requires WellFormed(v) && i < |v.table|
    requires Wrote(v, d, i, input, now, v', d')
    ensures WellFormed(v') <==> !PartialFails(PutBack(v, i), v.sb.dataBlockStart, |input|)
  {
    var e, e', news := v.table[i], v'.table[i], Taken(v, i, |input|);
    TakenIsFree(v, i, |input|);
    assert SafeEntry(v.sb, e);
    if PartialFails(PutBack(v, i), v.sb.dataBlockStart, |input|) {
      assert e'.blocks[|news|] == NO_BLOCK;
      assert !SafeRef(v.sb, e'.blocks[|news|]);
      assert !SafeEntry(v.sb, e');
    } else {
      forall j | 0 <= j < BLOCK_CNT
        ensures SafeRef(v.sb, e'.blocks[j])
      {
        if j < |news| {
          assert e'.blocks[j] == news[j];
        } else {
          assert e'.blocks[j] == e.blocks[j] && SafeRef(v.sb, e.blocks[j]);
        }
      }
      assert SafeEntry(v.sb, e');
      assert forall k :: 0 <= k < |v'.table| && k != i ==> v'.table[k] == v.table[k] && SafeEntry(v.sb, v.table[k]);
    }
  }

  /** Where map and table differ after a write: at the old blocks left behind and not taken. */
  lemma WhereTheyDiffer(v: Volume, d: seq<Byte>, i: nat, input: seq<Byte>, now: int, v': Volume, d': seq<Byte>, b: nat)
    requires Consistent(v) && i < |v.table| && Live(v.table[i]) && b < v.sb.partitionSize
    requires Wrote(v, d, i, input, now, v', d') && WellFormed(v')
    ensures v'.used[b] == MountedMap(v.sb, v'.table)[b]
            <==> !(b in Stale(v, i, |input|) && b !in Taken(v, i, |input|))
  {
    WrittenIsWellFormed(v, d, i, input, now, v', d');
    TakesWhatItUses(v, i, |input|);
    ChainAfterWrite(v, i, |input|, v'.table[i]);
    MountAfterWrite(v, i, |input|, v'.table, b);
    WrittenMap(v, i, |input|, b);
    assert forall x :: x in Stale(v, i, |input|) ==> x in Chain(v.table[i]);
  }

  /** After a write no entry holds a bad block number exactly when the last allocation did not
      fail; and then map and table agree exactly when every old block left behind has fewer free
      blocks below it, before any is taken, than the write uses. */
  lemma WriteAgreesExactly(v: Volume, d: seq<Byte>, i: nat, input: seq<Byte>, now: int, v': Volume, d': seq<Byte>)
    requires Consistent(v) && i < |v.table| && Live(v.table[i])
    requires Wrote(v, d, i, input, now, v', d')
    ensures var u, ds := PutBack(v, i), v.sb.dataBlockStart;
            && (WellFormed(v') <==> !PartialFails(u, ds, |input|))
            && (WellFormed(v') ==>
                 (Agrees(v') <==>
                  forall b: int :: b in Stale(v, i, |input|) ==> |FreeBelow(u, ds, b)| < Uses(v, i, |input|)))
  {
    var u, ds, n := PutBack(v, i), v.sb.dataBlockStart, Uses(v, i, |input|);
    WrittenIsWellFormed(v, d, i, input, now, v', d');
    if WellFormed(v') {
      forall b: int | b in Stale(v, i, |input|)
        ensures ds <= b < |v'.used| && (b in Taken(v, i, |input|) <==> |FreeBelow(u, ds, b)| < n)
      {
        StaleIsTakenExactly(v, i, |input|, b);
      }
      forall b | 0 <= b < |v'.used|
        ensures v'.used[b] == MountedMap(v.sb, v'.table)[b]
                <==> !(b in Stale(v, i, |input|) && b !in Taken(v, i, |input|))
      {
        WhereTheyDiffer(v, d, i, input, now, v', d', b);
      }
    }
  }

  lemma StaleIsTakenExactly(v: Volume, i: nat, len: nat, b: int)
    requires Consistent(v) && i < |v.table| && b in Stale(v, i, len)
    ensures v.sb.dataBlockStart <= b < v.sb.partitionSize
    ensures b in Taken(v, i, len) <==> |FreeBelow(PutBack(v, i), v.sb.dataBlockStart, b)| < Uses(v, i, len)
  {
    ChainIsDistinct(v, i);
    assert b in Chain(v.table[i]);
    TakenAreLeast(PutBack(v, i), v.sb.dataBlockStart, Uses(v, i, len), b);
  }

  // ---------- consistency ----------

  lemma RefIsChained(v: Volume, i: nat, j: nat)
    requires Consistent(v) && i < |v.table| && j < BLOCK_CNT && Ref(v.table, i, j) != 0
    ensures Ref(v.table, i, j) in Chain(v.table[i])
  {
    assert TidyEntry(v.table[i]);
    ChainIsNonzeroRefs(v.table[i], Ref(v.table, i, j));
  }

  /** A write that uses at least as many blocks as the file had leaves an entry with the new
      blocks and nothing behind them. */
  lemma NothingBehind(v: Volume, i: nat, len: nat, e': FileEntry)
    requires Consistent(v) && i < |v.table| && ChainLen(v.table[i].blocks) <= Uses(v, i, len)
    requires |Taken(v, i, len)| == Uses(v, i, len) <= BLOCK_CNT
    requires e'.blocks == OverBlocks(v.table[i].blocks, Taken(v, i, len), false)
    ensures Chain(e') == Taken(v, i, len) && HoleFree(e')
    ensures forall j :: 0 <= j < BLOCK_CNT ==> e'.blocks[j] == if j < |Taken(v, i, len)| then Taken(v, i, len)[j] else 0
  {
    ChainAfterWrite(v, i, len, e');
    assert Stale(v, i, len) == [];
    assert TidyEntry(v.table[i]);
  }

  lemma StaysInjective(v: Volume, i: nat, len: nat, t': seq<FileEntry>)
    requires Consistent(v) && i < |v.table| && |t'| == |v.table|
    requires forall k :: 0 <= k < |t'| && k != i ==> t'[k] == v.table[k]
    requires forall j :: 0 <= j < BLOCK_CNT ==>
               t'[i].blocks[j] == if j < |Taken(v, i, len)| then Taken(v, i, len)[j] else 0
    ensures Injective(t')
  {
    var news := Taken(v, i, len);
    TakenIsFree(v, i, len);
    forall k, j | 0 <= k < |t'| && k != i && 0 <= j < BLOCK_CNT && Ref(t', k, j) != 0
      ensures Ref(t', k, j) == Ref(v.table, k, j) && Ref(t', k, j) !in news
    {
      RefIsChained(v, k, j);
      OthersKeepTheirBlocks(v, i, len, k, Ref(v.table, k, j));
    }
    forall j | 0 <= j < BLOCK_CNT && Ref(t', i, j) != 0
      ensures j < |news| && Ref(t', i, j) == news[j] && news[j] in news
    {
    }
  }

  lemma EnoughBlocksKeepConsistent(v: Volume, d: seq<Byte>, i: nat, input: seq<Byte>, now: int,
                                   v': Volume, d': seq<Byte>)
    requires Consistent(v) && i < |v.table| && Live(v.table[i])
    requires Wrote(v, d, i, input, now, v', d') && WellFormed(v')
    requires ChainLen(v.table[i].blocks) <= Uses(v, i, |input|)
    ensures Consistent(v')
  {
    WrittenIsWellFormed(v, d, i, input, now, v', d');
    TakesWhatItUses(v, i, |input|);
    NothingBehind(v, i, |input|, v'.table[i]);
    StaysInjective(v, i, |input|, v'.table);
    assert Tidy(v'.table);
    WriteAgreesExactly(v, d, i, input, now, v', d');
    MountGivesConsistent(v');
    assert AfterMount(v') == v';
  }

  /** A write that uses fewer blocks leaves an old number behind. If map and table agree all the
      same, the entry names that block twice. */
  lemma FewerBlocksBreak(v: Volume, d: seq<Byte>, i: nat, input: seq<Byte>, now: int, v': Volume, d': seq<Byte>)
    requires Consistent(v) && i < |v.table| && Live(v.table[i])
    requires Wrote(v, d, i, input, now, v', d') && WellFormed(v')
    requires Uses(v, i, |input|) < ChainLen(v.table[i].blocks)
    ensures Agrees(v') ==> !Injective(v'.table)
  {
    var n, c, news := Uses(v, i, |input|), Chain(v.table[i]), Taken(v, i, |input|);
    var b := c[n];
    WrittenIsWellFormed(v, d, i, input, now, v', d');
    TakesWhatItUses(v, i, |input|);
    ChainIsDistinct(v, i);
    assert c[n..][0] == b;
    assert b in Stale(v, i, |input|) && b in c;
    WhereTheyDiffer(v, d, i, input, now, v', d', b);
    assert Ref(v'.table, i, n) == b;
    if k :| 0 <= k < |news| && news[k] == b {
      assert Ref(v'.table, i, k) == b;
    }
  }

  /** Exactly when a write keeps the volume consistent: the last allocation does not fail, and
      the file uses at least as many blocks as it had. */
  lemma WriteKeepsConsistentExactly(v: Volume, d: seq<Byte>, i: nat, input: seq<Byte>, now: int,
                                    v': Volume, d': seq<Byte>)
    requires Consistent(v) && i < |v.table| && Live(v.table[i])
    requires Wrote(v, d, i, input, now, v', d')
    ensures var u, ds := PutBack(v, i), v.sb.dataBlockStart;
            Consistent(v') <==> !PartialFails(u, ds, |input|)
                                && BlocksNeeded(StoredSize(u, ds, |input|)) >= ChainLen(v.table[i].blocks)
  {
    WrittenIsWellFormed(v, d, i, input, now, v', d');
    if WellFormed(v') {
      if ChainLen(v.table[i].blocks) <= Uses(v, i, |input|) {
        EnoughBlocksKeepConsistent(v, d, i, input, now, v', d');
      } else {
        FewerBlocksBreak(v, d, i, input, now, v', d');
      }
    }
  }

  /** Emptying a file always breaks the agreement: it keeps all its block numbers, and all its
      blocks are free. */
  lemma EmptyWriteDisagrees(v: Volume, d: seq<Byte>, i: nat, now: int, v': Volume, d': seq<Byte>)
    requires Consistent(v) && i < |v.table| && Live(v.table[i]) && v.table[i].blocks[0] != 0
    requires Wrote(v, d, i, [], now, v', d')
    ensures WellFormed(v') && !Agrees(v')
    ensures v'.table[i].blocks == v.table[i].blocks && v'.used[v.table[i].blocks[0]] == 0
  {
    var b := v.table[i].blocks[0];
    var input: seq<Byte> := [];
    WrittenIsWellFormed(v, d, i, input, now, v', d');
    TakesWhatItUses(v, i, 0);
    assert Chain(v.table[i])[0] == b && b in Stale(v, i, 0) && Taken(v, i, 0) == [];
    ChainIsDistinct(v, i);
    WhereTheyDiffer(v, d, i, input, now, v', d', b);
    WrittenMap(v, i, 0, b);
  }

  /** What a disagreement means: the old block is still in the file's chain, and free for the
      next file that asks for a block. */
  lemma StaleBlockIsFree(v: Volume, d: seq<Byte>, i: nat, input: seq<Byte>, now: int,
                         v': Volume, d': seq<Byte>, b: Word)
    requires Consistent(v) && i < |v.table| && Live(v.table[i])
    requires Wrote(v, d, i, input, now, v', d') && WellFormed(v')
    requires b in Stale(v, i, |input|)
    requires |FreeBelow(PutBack(v, i), v.sb.dataBlockStart, b)| >= Uses(v, i, |input|)
    ensures b in Chain(v'.table[i]) && b < |v'.used| && v'.used[b] == 0
  {
    WrittenIsWellFormed(v, d, i, input, now, v', d');
    TakesWhatItUses(v, i, |input|);
    ChainAfterWrite(v, i, |input|, v'.table[i]);
    StaleIsTakenExactly(v, i, |input|, b);
    assert b in Chain(v.table[i]);
    WrittenMap(v, i, |input|, b);
  }

  // ---------- large partitions ----------

  /** Where a write or read of block `b` goes: positions are computed in 32 bits. */
  function Position(b: Word): Word {
    ToWord(b * BLOCK_SIZE)
  }

  /** A block is reached at its own address exactly when it is one of the first 2^23; any other
      stands for the block of that number modulo 2^23, beginning with the superblock's. */
  lemma OwnPositionExactly(b: Word)
    ensures Position(b) == b * BLOCK_SIZE <==> b < WORD_BLOCKS
    ensures Position(b) == b % WORD_BLOCKS * BLOCK_SIZE
    ensures Position(WORD_BLOCKS) == 0
  {
    WrappedSum(b, 0);
    WrappedSum(WORD_BLOCKS, 0);
  }

  /** So writing block `b` changes block `b % 2^23` and no other. Of the blocks from 2^23 on none
      is ever written, and the first of them overwrites the superblock. */
  lemma WrittenBlock(d: seq<Byte>, b: Word, bytes: seq<Byte>, x: nat)
    requires |bytes| == BLOCK_SIZE && (b + 1) * BLOCK_SIZE <= |d| && (x + 1) * BLOCK_SIZE <= |d|
    ensures Position(b) + BLOCK_SIZE <= |d|
    ensures BlockAt(Splice(d, Position(b), bytes), x) == if x == b % WORD_BLOCKS then bytes else BlockAt(d, x)
  {
    var y := b % WORD_BLOCKS;
    OwnPositionExactly(b);
    assert y <= b;
    if x == y {
      SpliceReadBack(d, y * BLOCK_SIZE, bytes);
    } else {
      BlockElsewhere(d, y, bytes, x);
    }
  }
}
