/** Who owns which data block: exclusive ownership, agreement of the map with the table, and what
    putting blocks back and handing a block out do to both. */
module SfsOwnership {
  import opened SfsLayout
  import opened SfsVolume

  function Ref(t: seq<FileEntry>, i: int, j: int): Word
    requires 0 <= i < |t| && 0 <= j < BLOCK_CNT
  {
    t[i].blocks[j]
  }

  // ---------- invariants ----------

  /** Every referenced block is marked used. */
  predicate Marked(v: Volume)
    requires WellFormed(v)
  {
    forall i, j :: 0 <= i < |v.table| && 0 <= j < BLOCK_CNT && Ref(v.table, i, j) != 0 ==>
      v.used[Ref(v.table, i, j)] != 0
  }

  /** No block is referenced from two places. */
  predicate Injective(t: seq<FileEntry>) {
    forall i, j, i', j' ::
      && 0 <= i < |t| && 0 <= j < BLOCK_CNT && 0 <= i' < |t| && 0 <= j' < BLOCK_CNT
      && Ref(t, i, j) != 0 && Ref(t, i, j) == Ref(t, i', j')
      ==> i == i' && j == j'
  }

  predicate Exclusive(v: Volume) {
    WellFormed(v) && Marked(v) && Injective(v.table)
  }

  /** The entry shows all its blocks to a scan that skips nameless entries and stops at zero. */
  predicate TidyEntry(e: FileEntry) {
    HoleFree(e) && (!Live(e) ==> HoldsNothing(e))
  }

  predicate Tidy(t: seq<FileEntry>) {
    forall i :: 0 <= i < |t| ==> TidyEntry(t[i])
  }

  /** Unmounting and mounting again would rebuild the same map, cell for cell. */
  predicate Agrees(v: Volume)
    requires WellFormed(v)
  {
    v.used == MountedMap(v.sb, v.table)
  }

  predicate Consistent(v: Volume) {
    Exclusive(v) && Tidy(v.table) && Agrees(v)
  }

  /** Some entry has block number `b` at some index. */
  predicate Referenced(t: seq<FileEntry>, b: int) {
    exists i, j :: 0 <= i < |t| && 0 <= j < BLOCK_CNT && Ref(t, i, j) == b
  }

  // ---------- what a mount sees ----------

  lemma ChainIsNonzeroRefs(e: FileEntry, b: int)
    requires HoleFree(e) && b != 0
    ensures b in Chain(e) <==> exists j :: 0 <= j < BLOCK_CNT && e.blocks[j] == b
  {
    if j :| 0 <= j < BLOCK_CNT && e.blocks[j] == b {
      assert Chain(e)[j] == b;
    }
  }

  /** In a tidy table the scan of a mount finds exactly the referenced blocks. */
  lemma ChainedIsReferenced(t: seq<FileEntry>, b: int)
    requires Tidy(t) && b != 0
    ensures Chained(t, |t|, b) <==> Referenced(t, b)
  {
    if Chained(t, |t|, b) {
      var i :| 0 <= i < |t| && Live(t[i]) && b in Chain(t[i]);
      ChainIsNonzeroRefs(t[i], b);
      var j :| 0 <= j < BLOCK_CNT && t[i].blocks[j] == b;
      assert Ref(t, i, j) == b;
    }
    if Referenced(t, b) {
      var i, j :| 0 <= i < |t| && 0 <= j < BLOCK_CNT && Ref(t, i, j) == b;
      assert TidyEntry(t[i]);
      ChainIsNonzeroRefs(t[i], b);
    }
  }

  /** Agreement, said without the scan. */
  predicate Exact(v: Volume)
    requires WellFormed(v)
  {
    forall b :: 0 <= b < v.sb.partitionSize ==>
      v.used[b] == if b < v.sb.dataBlockStart || Referenced(v.table, b) then 1 else 0
  }

  lemma AgreesIsExact(v: Volume)
    requires WellFormed(v) && Tidy(v.table)
    ensures Agrees(v) <==> Exact(v)
  {
    var m := MountedMap(v.sb, v.table);
    forall b | 0 <= b < v.sb.partitionSize
      ensures m[b] == if b < v.sb.dataBlockStart || Referenced(v.table, b) then 1 else 0
    {
      if b != 0 {
        ChainedIsReferenced(v.table, b);
      }
    }
  }

  // ---------- putting blocks back ----------

  /** Entry `e` keeps some of entry `i`'s blocks where they were; `gone` lists only blocks of
      that entry and none that is kept. */
  predicate Releases(v: Volume, i: nat, e: FileEntry, gone: seq<Word>)
    requires i < |v.table|
  {
    && SafeEntry(v.sb, e)
    && (forall j :: 0 <= j < BLOCK_CNT ==>
          e.blocks[j] == 0 || (e.blocks[j] == Ref(v.table, i, j) && e.blocks[j] !in gone))
    && (forall k :: 0 <= k < |gone| ==> gone[k] in v.table[i].blocks)
  }

  lemma ReleaseRefs(v: Volume, i: nat, e: FileEntry, gone: seq<Word>, i': nat, j': nat)
    requires Exclusive(v) && i < |v.table| && Releases(v, i, e, gone)
    requires i' < |v.table| && j' < BLOCK_CNT
    ensures var r := Ref(Release(v, i, e, gone).table, i', j');
            r == 0 || (r == Ref(v.table, i', j') && r !in gone)
  {
    var b := Ref(v.table, i', j');
    assert forall j :: 0 <= j < BLOCK_CNT && i' != i && b != 0 ==> Ref(v.table, i, j) != b;
    assert i' != i && b != 0 ==> forall j :: 0 <= j < BLOCK_CNT ==> v.table[i].blocks[j] == Ref(v.table, i, j);
    assert i' != i && b != 0 ==> b !in v.table[i].blocks;
  }

  lemma ReleaseKeepsExclusive(v: Volume, i: nat, e: FileEntry, gone: seq<Word>)
    requires Exclusive(v) && i < |v.table| && Releases(v, i, e, gone)
    ensures Exclusive(Release(v, i, e, gone))
  {
    var v' := Release(v, i, e, gone);
    forall i', j' | 0 <= i' < |v'.table| && 0 <= j' < BLOCK_CNT
      ensures Ref(v'.table, i', j') == 0 ||
              (Ref(v'.table, i', j') == Ref(v.table, i', j') && Ref(v.table, i', j') !in gone)
    {
      ReleaseRefs(v, i, e, gone, i', j');
    }
  }

  /** When every dropped block is put back, the map stays exact. */
  lemma ReleaseKeepsConsistent(v: Volume, i: nat, e: FileEntry, gone: seq<Word>)
    requires Consistent(v) && i < |v.table| && Releases(v, i, e, gone) && TidyEntry(e)
    requires forall j :: 0 <= j < BLOCK_CNT && e.blocks[j] == 0 ==>
               Ref(v.table, i, j) == 0 || Ref(v.table, i, j) in gone
    ensures Consistent(Release(v, i, e, gone))
  {
    var v' := Release(v, i, e, gone);
    ReleaseKeepsExclusive(v, i, e, gone);
    AgreesIsExact(v);
    forall b | 0 < b < v.sb.partitionSize
      ensures Referenced(v'.table, b) <==> Referenced(v.table, b) && b !in gone
    {
      ReleaseReferenced(v, i, e, gone, b);
    }
    forall b | 0 <= b < v.sb.partitionSize
      ensures v'.used[b] == if b < v.sb.dataBlockStart || Referenced(v'.table, b) then 1 else 0
    {
      if b != 0 && b in gone {
        var k :| 0 <= k < |gone| && gone[k] == b;
        var j :| 0 <= j < BLOCK_CNT && v.table[i].blocks[j] == b;
        assert SafeEntry(v.sb, v.table[i]) && SafeRef(v.sb, v.table[i].blocks[j]);
      }
    }
    AgreesIsExact(v');
  }

  lemma ReleaseReferenced(v: Volume, i: nat, e: FileEntry, gone: seq<Word>, b: nat)
    requires Exclusive(v) && i < |v.table| && Releases(v, i, e, gone)
    requires forall j :: 0 <= j < BLOCK_CNT && e.blocks[j] == 0 ==>
               Ref(v.table, i, j) == 0 || Ref(v.table, i, j) in gone
    requires b != 0
    ensures Referenced(Release(v, i, e, gone).table, b) <==> Referenced(v.table, b) && b !in gone
  {
    var t' := Release(v, i, e, gone).table;
    if Referenced(t', b) {
      var i', j' :| 0 <= i' < |t'| && 0 <= j' < BLOCK_CNT && Ref(t', i', j') == b;
      ReleaseRefs(v, i, e, gone, i', j');
    }
    if Referenced(v.table, b) && b !in gone {
      var i', j' :| 0 <= i' < |t'| && 0 <= j' < BLOCK_CNT && Ref(v.table, i', j') == b;
      assert Ref(t', i', j') == b;
    }
  }

  // ---------- handing a block out ----------

  lemma AllocateRef(v: Volume, i: nat, j: nat, b: nat, i': nat, j': nat)
    requires WellFormed(v) && i < |v.table| && j < BLOCK_CNT && b < v.sb.partitionSize
    requires i' < |v.table| && j' < BLOCK_CNT
    ensures Ref(Allocate(v, i, j, b).table, i', j') == if i' == i && j' == j then b else Ref(v.table, i', j')
  {
  }

  lemma AllocateKeepsWellFormed(v: Volume, i: nat, j: nat, b: nat)
    requires WellFormed(v) && i < |v.table| && j < BLOCK_CNT && v.sb.dataBlockStart <= b < v.sb.partitionSize
    ensures WellFormed(Allocate(v, i, j, b))
  {
    var v' := Allocate(v, i, j, b);
    forall k | 0 <= k < |v'.table|
      ensures SafeEntry(v.sb, v'.table[k])
    {
      assert SafeEntry(v.sb, v.table[k]);
    }
  }

  lemma AllocateKeepsExclusive(v: Volume, i: nat, j: nat, b: nat)
    requires Exclusive(v) && i < |v.table| && j < BLOCK_CNT && v.table[i].blocks[j] == 0
    requires v.sb.dataBlockStart <= b < v.sb.partitionSize && v.used[b] == 0
    ensures Exclusive(Allocate(v, i, j, b))
  {
    var v' := Allocate(v, i, j, b);
    AllocateKeepsWellFormed(v, i, j, b);
    forall i', j' | 0 <= i' < |v'.table| && 0 <= j' < BLOCK_CNT
      ensures Ref(v'.table, i', j') == if i' == i && j' == j then b else Ref(v.table, i', j')
    {
      AllocateRef(v, i, j, b, i', j');
    }
    assert forall i', j' :: 0 <= i' < |v.table| && 0 <= j' < BLOCK_CNT ==> Ref(v.table, i', j') != b;
  }

  lemma AllocateReferenced(v: Volume, i: nat, j: nat, b: nat, x: nat)
    requires WellFormed(v) && i < |v.table| && j < BLOCK_CNT && v.table[i].blocks[j] == 0
    requires b < v.sb.partitionSize && x != 0
    ensures Referenced(Allocate(v, i, j, b).table, x) <==> x == b || Referenced(v.table, x)
  {
    var t' := Allocate(v, i, j, b).table;
    if Referenced(t', x) {
      var i', j' :| 0 <= i' < |t'| && 0 <= j' < BLOCK_CNT && Ref(t', i', j') == x;
      AllocateRef(v, i, j, b, i', j');
      if x != b {
        assert Ref(v.table, i', j') == x;
      }
    }
    if x == b {
      assert Ref(t', i, j) == x;
    } else if Referenced(v.table, x) {
      var i', j' :| 0 <= i' < |t'| && 0 <= j' < BLOCK_CNT && Ref(v.table, i', j') == x;
      assert Ref(t', i', j') == x;
    }
  }

  lemma AllocateExact(v: Volume, i: nat, j: nat, b: nat)
    requires Consistent(v) && i < |v.table| && j < BLOCK_CNT && v.table[i].blocks[j] == 0
    requires v.sb.dataBlockStart <= b < v.sb.partitionSize && v.used[b] == 0
    requires Tidy(Allocate(v, i, j, b).table)
    ensures Agrees(Allocate(v, i, j, b))
  {
    var v' := Allocate(v, i, j, b);
    AllocateKeepsWellFormed(v, i, j, b);
    AgreesIsExact(v);
    forall x | 0 <= x < v.sb.partitionSize
      ensures v'.used[x] == if x < v.sb.dataBlockStart || Referenced(v'.table, x) then 1 else 0
    {
      if x != 0 {
        AllocateReferenced(v, i, j, b, x);
      }
    }
    AgreesIsExact(v');
  }

  /** Filling the index right after a chain keeps the entry free of holes; any later one does not. */
  lemma FillNext(e: FileEntry, j: nat, b: Word)
    requires HoleFree(e) && j < BLOCK_CNT && e.blocks[j] == 0 && b != 0
    ensures HoleFree(e.(blocks := e.blocks[j := b])) <==> j == ChainLen(e.blocks)
    ensures b in Chain(e.(blocks := e.blocks[j := b])) ==> j == ChainLen(e.blocks) || b in e.blocks
  {
    var bs := e.blocks[j := b];
    var n := ChainLen(e.blocks);
    if j == n {
      assert ChainLen(bs) == n + 1 by {
        assert forall k :: 0 <= k <= n ==> bs[k] != 0;
        assert n + 1 < BLOCK_CNT ==> bs[n + 1] == 0;
      }
    } else {
      assert j > n by {
        assert forall k :: 0 <= k < n ==> e.blocks[k] != 0;
      }
      assert bs[n] == 0 && ChainLen(bs) == n;
      var e': FileEntry := e.(blocks := bs);
      assert Chain(e') == Chain(e);
      assert e'.blocks[j] != 0;
    }
  }
}
