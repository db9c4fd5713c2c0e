/** Whole runs of file-system operations: exclusive ownership in any order within one mount,
    agreement with a remount in order, and what an out-of-order allocation breaks. */
module SfsRuns {
  import opened SfsLayout
  import opened SfsVolume
  import opened SfsOwnership

  predicate CallableRun(v: Volume, ops: seq<Op>)
    decreases |ops|
  {
    ops == [] || (Callable(v, ops[0]) && CallableRun(Apply(v, ops[0]), ops[1..]))
  }

  function Run(v: Volume, ops: seq<Op>): Volume
    requires CallableRun(v, ops)
    decreases |ops|
  {
    if ops == [] then v else Run(Apply(v, ops[0]), ops[1..])
  }

  /** No remount among the operations. */
  predicate OneMount(ops: seq<Op>) {
    forall k :: 0 <= k < |ops| ==> !ops[k].Remount?
  }

  /** Blocks are added only to live files, and at an index no greater than the number of
      blocks already mapped. */
  predicate InOrder(v: Volume, op: Op)
    requires Callable(v, op)
  {
    op.GetBlock? && op.create ==>
      var e := v.table[op.slot]; Live(e) && op.iblock <= ChainLen(e.blocks)
  }

  predicate InOrderRun(v: Volume, ops: seq<Op>)
    requires CallableRun(v, ops)
    decreases |ops|
  {
    ops == [] || (InOrder(v, ops[0]) && InOrderRun(Apply(v, ops[0]), ops[1..]))
  }

  // ---------- the operations as releases ----------

  lemma NewEntryIsTidy(sb: SuperBlock, fn: Text, perms: int, now: int)
    ensures SafeEntry(sb, NewEntry(fn, perms, now)) && TidyEntry(NewEntry(fn, perms, now))
    ensures HoldsNothing(NewEntry(fn, perms, now))
  {
  }

  lemma CreateIsRelease(v: Volume, fn: Text, perms: int, now: int)
    requires Exclusive(v) && CreateSlot(v.table, fn).Some?
    ensures var f := CreateSlot(v.table, fn).value;
            var e := NewEntry(fn, perms, now);
            Releases(v, f, e, []) && AfterCreate(v, fn, perms, now) == Release(v, f, e, [])
  {
    NewEntryIsTidy(v.sb, fn, perms, now);
    assert Clear(v.used, []) == v.used;
  }

  lemma ChainWithin(e: FileEntry)
    ensures forall k :: 0 <= k < |Chain(e)| ==> Chain(e)[k] in e.blocks
  {
    assert forall k :: 0 <= k < |Chain(e)| ==> Chain(e)[k] == e.blocks[k];
  }

  lemma RemoveIsRelease(v: Volume, i: nat)
    requires Exclusive(v) && i < |v.table|
    ensures Releases(v, i, EMPTY_ENTRY, Chain(v.table[i])) && TidyEntry(EMPTY_ENTRY)
  {
    ChainWithin(v.table[i]);
  }

  lemma UpdateIsRelease(v: Volume, i: nat, size: Option<int>, timestamp: Option<int>, perms: Option<int>)
    requires Exclusive(v) && i < |v.table|
    ensures var e := v.table[i];
            Releases(v, i, Updated(e, size, timestamp, perms),
                     e.blocks[Min(KeptBlocks(Or(size, e.size)), BLOCK_CNT)..])
  {
    var e := v.table[i];
    var n := Min(KeptBlocks(Or(size, e.size)), BLOCK_CNT);
    var e' := Updated(e, size, timestamp, perms);
    assert SafeEntry(v.sb, e);
    assert SafeEntry(v.sb, e');
    forall j | 0 <= j < BLOCK_CNT
      ensures e'.blocks[j] == 0 || (e'.blocks[j] == Ref(v.table, i, j) && e'.blocks[j] !in e.blocks[n..])
    {
      if e'.blocks[j] != 0 {
        forall k | n <= k < BLOCK_CNT
          ensures e.blocks[k] != e.blocks[j]
        {
          assert Ref(v.table, i, k) == e.blocks[k] && Ref(v.table, i, j) == e.blocks[j];
        }
      }
    }
    assert forall k :: 0 <= k < |e.blocks[n..]| ==> e.blocks[n..][k] == e.blocks[n + k];
  }

  // ---------- what can be called ----------

  /** Every operation leaves the volume well formed, so nothing an operation does can make a
      later one uncallable. */
  lemma ApplyKeepsWellFormed(v: Volume, op: Op)
    requires Callable(v, op)
    ensures WellFormed(Apply(v, op)) && |Apply(v, op).table| == |v.table|
  {
    var v' := Apply(v, op);
    match op
    case Create(fn, perms, now) => NewEntryIsTidy(v.sb, fn, perms, now);
    case Remove(fn) =>
    case GetBlock(i, j, create) =>
      var b := FirstFree(v.used, v.sb.dataBlockStart);
      if create && j < BLOCK_CNT && v.table[i].blocks[j] == 0 && b.Some? {
        AllocateKeepsWellFormed(v, i, j, b.value);
      }
    case Update(i, size, timestamp, perms) =>
      assert SafeEntry(v.sb, v.table[i]);
      assert SafeEntry(v.sb, v'.table[i]);
    case Remount =>
  }

  /** The slot of the inode number passed, if there is one, is below `n`. */
  predicate SlotBelow(op: Op, n: nat) {
    match op
    case GetBlock(slot, _, _) => slot < n
    case Update(slot, _, _, _) => slot < n
    case _ => true
  }

  /** A run can be called exactly when its inode numbers name slots of the table. */
  lemma {:induction false} CallableExactly(v: Volume, ops: seq<Op>)
    requires WellFormed(v)
    ensures CallableRun(v, ops) <==> forall k :: 0 <= k < |ops| ==> SlotBelow(ops[k], |v.table|)
    decreases |ops|
  {
    if ops != [] && SlotBelow(ops[0], |v.table|) {
      var v' := Apply(v, ops[0]);
      ApplyKeepsWellFormed(v, ops[0]);
      CallableExactly(v', ops[1..]);
      assert CallableRun(v, ops) <==> CallableRun(v', ops[1..]);
      assert ops == [ops[0]] + ops[1..];
    }
  }

  // ---------- exclusive ownership ----------

  lemma StepKeepsExclusive(v: Volume, op: Op)
    requires Exclusive(v) && Callable(v, op) && !op.Remount?
    ensures Exclusive(Apply(v, op))
  {
    match op
    case Create(fn, perms, now) =>
      var slot := CreateSlot(v.table, fn);
      if slot.Some? {
        CreateIsRelease(v, fn, perms, now);
        ReleaseKeepsExclusive(v, slot.value, NewEntry(fn, perms, now), []);
      }
    case Remove(fn) =>
      var slot := FindName(v.table, fn, 0);
      if slot.Some? {
        RemoveIsRelease(v, slot.value);
        ReleaseKeepsExclusive(v, slot.value, EMPTY_ENTRY, Chain(v.table[slot.value]));
      }
    case GetBlock(i, j, create) =>
      var b := FirstFree(v.used, v.sb.dataBlockStart);
      if create && j < BLOCK_CNT && v.table[i].blocks[j] == 0 && b.Some? {
        AllocateKeepsExclusive(v, i, j, b.value);
      }
    case Update(i, size, timestamp, perms) =>
      UpdateIsRelease(v, i, size, timestamp, perms);
      var e := v.table[i];
      ReleaseKeepsExclusive(v, i, Updated(e, size, timestamp, perms),
                            e.blocks[Min(KeptBlocks(Or(size, e.size)), BLOCK_CNT)..]);
    case Remount =>
      assert false;
  }

  /** Within one mount, whatever the order of operations and whatever holes they leave, no data
      block has two owners and every owned block is marked used. */
  lemma {:induction false} ExclusiveOwnership(v: Volume, ops: seq<Op>)
    requires Exclusive(v) && CallableRun(v, ops) && OneMount(ops)
    ensures Exclusive(Run(v, ops))
    decreases |ops|
  {
    if ops != [] {
      StepKeepsExclusive(v, ops[0]);
      ExclusiveOwnership(Apply(v, ops[0]), ops[1..]);
    }
  }

  /** Mounting a tidy table without shared blocks gives a consistent volume. */
  lemma MountGivesConsistent(v: Volume)
    requires WellFormed(v) && Tidy(v.table) && Injective(v.table)
    ensures Consistent(AfterMount(v))
  {
    var v' := AfterMount(v);
    forall i, j | 0 <= i < |v.table| && 0 <= j < BLOCK_CNT && Ref(v.table, i, j) != 0
      ensures v'.used[Ref(v.table, i, j)] != 0
    {
      assert SafeEntry(v.sb, v.table[i]) && SafeRef(v.sb, v.table[i].blocks[j]);
      ChainedIsReferenced(v.table, Ref(v.table, i, j));
    }
  }

  // ---------- agreement with a remount ----------

  lemma GetBlockInOrder(v: Volume, i: nat, j: nat)
    requires Consistent(v) && i < |v.table|
    requires Live(v.table[i]) && j <= ChainLen(v.table[i].blocks)
    ensures Consistent(MapBlock(v, i, j, true).0)
  {
    var b := FirstFree(v.used, v.sb.dataBlockStart);
    if j < BLOCK_CNT && v.table[i].blocks[j] == 0 && b.Some? {
      AllocateKeepsExclusive(v, i, j, b.value);
      FillNext(v.table[i], j, b.value);
      AllocateExact(v, i, j, b.value);
    }
  }

  lemma StepKeepsConsistent(v: Volume, op: Op)
    requires Consistent(v) && Callable(v, op) && InOrder(v, op)
    ensures Consistent(Apply(v, op))
  {
    match op
    case Create(fn, perms, now) =>
      var slot := CreateSlot(v.table, fn);
      if slot.Some? {
        CreateIsRelease(v, fn, perms, now);
        NewEntryIsTidy(v.sb, fn, perms, now);
        assert TidyEntry(v.table[slot.value]);
        ReleaseKeepsConsistent(v, slot.value, NewEntry(fn, perms, now), []);
      }
    case Remove(fn) =>
      var slot := FindName(v.table, fn, 0);
      if slot.Some? {
        var e := v.table[slot.value];
        RemoveIsRelease(v, slot.value);
        assert TidyEntry(e);
        assert forall j :: 0 <= j < |Chain(e)| ==> e.blocks[j] == Chain(e)[j];
        ReleaseKeepsConsistent(v, slot.value, EMPTY_ENTRY, Chain(e));
      }
    case GetBlock(i, j, create) =>
      if create {
        GetBlockInOrder(v, i, j);
      }
    case Update(i, size, timestamp, perms) =>
      UpdateKeepsConsistent(v, i, size, timestamp, perms);
    case Remount =>
  }

  lemma CutKeepsTidy(e: FileEntry, size: Option<int>, timestamp: Option<int>, perms: Option<int>)
    requires TidyEntry(e)
    ensures TidyEntry(Updated(e, size, timestamp, perms))
  {
    var e' := Updated(e, size, timestamp, perms);
    var n, n', k := ChainLen(e.blocks), ChainLen(e'.blocks), KeptBlocks(Or(size, e.size));
    assert forall j :: 0 <= j < BLOCK_CNT ==> e'.blocks[j] == if j < k then e.blocks[j] else 0;
    assert n' >= Min(n, k) by {
      assert n' < BLOCK_CNT ==> e'.blocks[n'] == 0;
    }
  }

  /** An update keeps the map exact, also when it comes late, for an entry already removed. */
  lemma UpdateKeepsConsistent(v: Volume, i: nat, size: Option<int>, timestamp: Option<int>, perms: Option<int>)
    requires Consistent(v) && i < |v.table|
    ensures Consistent(AfterUpdate(v, i, size, timestamp, perms))
    ensures !Live(v.table[i]) ==> AfterUpdate(v, i, size, timestamp, perms).used == v.used
  {
    var e := v.table[i];
    var n := Min(KeptBlocks(Or(size, e.size)), BLOCK_CNT);
    assert TidyEntry(e);
    UpdateIsRelease(v, i, size, timestamp, perms);
    CutKeepsTidy(e, size, timestamp, perms);
    forall j | 0 <= j < BLOCK_CNT && Updated(e, size, timestamp, perms).blocks[j] == 0
      ensures e.blocks[j] == 0 || e.blocks[j] in e.blocks[n..]
    {
      if j >= n {
        assert e.blocks[n..][j - n] == e.blocks[j];
      }
    }
    ReleaseKeepsConsistent(v, i, Updated(e, size, timestamp, perms), e.blocks[n..]);
  }

  /** In every state an in-order run can reach, unmounting and mounting again rebuilds the map
      the volume already has; runs may contain any number of remounts and late updates. */
  lemma {:induction false} RemountAgreement(v: Volume, ops: seq<Op>)
    requires Consistent(v) && CallableRun(v, ops) && InOrderRun(v, ops)
    ensures Consistent(Run(v, ops))
    ensures AfterMount(Run(v, ops)) == Run(v, ops)
    decreases |ops|
  {
    if ops != [] {
      StepKeepsConsistent(v, ops[0]);
      RemountAgreement(Apply(v, ops[0]), ops[1..]);
    }
  }

  /** A block obtained for a place is a data block that no other place has; asking again, with or
      without permission to allocate, gives the same block and changes nothing. */
  lemma GetBlockIsStable(v: Volume, i: nat, j: nat, create: bool, again: bool)
    requires Exclusive(v) && i < |v.table| && MapBlock(v, i, j, create).1.Mapped?
    ensures var (v', m) := MapBlock(v, i, j, create);
            && Exclusive(v') && j < BLOCK_CNT
            && v.sb.dataBlockStart <= m.phys < v.sb.partitionSize
            && Ref(v'.table, i, j) == m.phys
            && MapBlock(v', i, j, again) == (v', m)
            && (forall i', j' :: 0 <= i' < |v.table| && 0 <= j' < BLOCK_CNT && (i' != i || j' != j) ==>
                  Ref(v'.table, i', j') == Ref(v.table, i', j') != m.phys)
  {
    var (v', m) := MapBlock(v, i, j, create);
    StepKeepsExclusive(v, GetBlock(i, j, create));
    assert SafeEntry(v'.sb, v'.table[i]) && SafeRef(v'.sb, v'.table[i].blocks[j]);
    assert Ref(v'.table, i, j) == m.phys != 0;
    forall i', j' | 0 <= i' < |v.table| && 0 <= j' < BLOCK_CNT && (i' != i || j' != j)
      ensures Ref(v'.table, i', j') == Ref(v.table, i', j') != m.phys
    {
      assert Ref(v'.table, i', j') == Ref(v.table, i', j');
    }
  }

  // ---------- what one operation changes ----------

  /** Only `blocks[j]` of entry `i` may differ. */
  predicate SameBut(t: seq<FileEntry>, t': seq<FileEntry>, i: nat, j: nat)
    requires i < |t|
  {
    && |t'| == |t|
    && (forall k :: 0 <= k < |t| && k != i ==> t'[k] == t[k])
    && t'[i].name == t[i].name && t'[i].size == t[i].size
    && t'[i].timestamp == t[i].timestamp && t'[i].perms == t[i].perms
    && forall j' :: 0 <= j' < BLOCK_CNT && j' != j ==> Ref(t', i, j') == Ref(t, i, j')
  }

  /** Asking for a block changes nothing when it fails or finds the block there; otherwise it
      takes the least free data block and enters it at this one place. */
  lemma MapBlockChangesOnly(v: Volume, i: nat, j: nat, create: bool)
    requires WellFormed(v) && i < |v.table|
    ensures var (v', m) := MapBlock(v, i, j, create);
            if !m.Mapped? || Ref(v.table, i, j) != 0 then v' == v && (m.Mapped? ==> m.phys == Ref(v.table, i, j))
            else
              && v'.sb == v.sb && SameBut(v.table, v'.table, i, j) && Ref(v'.table, i, j) == m.phys
              && v.sb.dataBlockStart <= m.phys < |v.used| && v.used[m.phys] == 0
              && (forall b :: v.sb.dataBlockStart <= b < m.phys ==> v.used[b] != 0)
              && v'.used == v.used[m.phys := 1]
  {
    FirstFreeIsLeast(v.used, v.sb.dataBlockStart);
  }

  /** A removal frees a block of the file exactly when no index before it is zero: blocks behind a
      hole stay marked. The entry is cleared, and nothing else changes. */
  lemma RemoveFreesExactly(v: Volume, fn: Text, i: nat)
    requires Exclusive(v) && FindName(v.table, fn, 0) == Some(i)
    ensures var v' := AfterRemove(v, fn);
            && v'.sb == v.sb && |v'.table| == |v.table| && |v'.used| == |v.used|
            && (forall k :: 0 <= k < |v.table| && k != i ==> v'.table[k] == v.table[k])
            && !Live(v'.table[i]) && HoldsNothing(v'.table[i]) && v'.table[i].size == 0
            && (forall j :: 0 <= j < BLOCK_CNT && Ref(v.table, i, j) != 0 ==>
                  Ref(v.table, i, j) < |v.used| &&
                  (v'.used[Ref(v.table, i, j)] == 0 <==> forall k :: 0 <= k < j ==> Ref(v.table, i, k) != 0))
            && (forall b :: 0 <= b < |v.used| && (forall j :: 0 <= j < BLOCK_CNT ==> Ref(v.table, i, j) != b) ==>
                  v'.used[b] == v.used[b])
  {
    var e, v' := v.table[i], AfterRemove(v, fn);
    var c := Chain(e);
    forall j | 0 <= j < BLOCK_CNT && Ref(v.table, i, j) != 0
      ensures v.sb.dataBlockStart <= Ref(v.table, i, j) < |v.used|
      ensures v'.used[Ref(v.table, i, j)] == 0 <==> j < |c|
      ensures j < |c| <==> forall k :: 0 <= k < j ==> Ref(v.table, i, k) != 0
    {
      assert SafeEntry(v.sb, e) && SafeRef(v.sb, e.blocks[j]);
      InChainExactly(v, i, j);
      assert |c| < j ==> Ref(v.table, i, |c|) == 0;
      assert forall k :: 0 <= k < |c| ==> Ref(v.table, i, k) == e.blocks[k] != 0;
    }
    ChainWithin(e);
    forall b | 0 <= b < |v.used| && forall j :: 0 <= j < BLOCK_CNT ==> Ref(v.table, i, j) != b
      ensures b !in c
    {
      assert forall k :: 0 <= k < |c| ==> c[k] == Ref(v.table, i, k);
    }
  }

  /** In an entry that shares no block, a block is in the chain exactly by its index. */
  lemma InChainExactly(v: Volume, i: nat, j: nat)
    requires Exclusive(v) && i < |v.table| && j < BLOCK_CNT && Ref(v.table, i, j) != 0
    ensures Ref(v.table, i, j) in Chain(v.table[i]) <==> j < ChainLen(v.table[i].blocks)
  {
    var c := Chain(v.table[i]);
    if j < |c| {
      assert c[j] == Ref(v.table, i, j);
    }
    forall k | 0 <= k < |c| && c[k] == Ref(v.table, i, j)
      ensures k == j
    {
      assert c[k] == Ref(v.table, i, k);
    }
  }

  // ---------- out of order ----------

  /** A block added past the end of a chain, or to a nameless entry, is invisible to a mount. */
  lemma HiddenFromMount(v: Volume, i: nat, j: nat, b: nat)
    requires Consistent(v) && i < |v.table| && j < BLOCK_CNT && v.table[i].blocks[j] == 0
    requires v.sb.dataBlockStart <= b < v.sb.partitionSize && v.used[b] == 0
    requires !Live(v.table[i]) || j > ChainLen(v.table[i].blocks)
    ensures MountedMap(v.sb, Allocate(v, i, j, b).table) == v.used
  {
    var t, t' := v.table, Allocate(v, i, j, b).table;
    var e, e' := t[i], t'[i];
    assert HoleFree(e);
    assert Live(e) ==> Chain(e') == Chain(e) by {
      if Live(e) {
        var n := ChainLen(e.blocks);
        assert e'.blocks[n] == 0 && ChainLen(e'.blocks) == n;
      }
    }
    forall x | 0 <= x < v.sb.partitionSize
      ensures Chained(t', |t'|, x) <==> Chained(t, |t|, x)
    {
      SameChains(t, t', x);
      SameChains(t', t, x);
    }
  }

  lemma SameChains(t: seq<FileEntry>, t': seq<FileEntry>, x: int)
    requires |t| == |t'|
    requires forall k :: 0 <= k < |t| ==> (Live(t[k]) <==> Live(t'[k])) && (Live(t[k]) ==> Chain(t[k]) == Chain(t'[k]))
    ensures Chained(t, |t|, x) ==> Chained(t', |t'|, x)
  {
    if Chained(t, |t|, x) {
      var k :| 0 <= k < |t| && Live(t[k]) && x in Chain(t[k]);
      assert Live(t'[k]) && x in Chain(t'[k]);
    }
  }

  /** Exactly when `sfs_get_block` keeps the map in agreement with the table: when it hands out
      no new block, or the entry is live and the index does not skip one. */
  lemma GetBlockAgreesExactly(v: Volume, i: nat, j: nat, create: bool)
    requires Consistent(v) && i < |v.table|
    ensures var v' := MapBlock(v, i, j, create).0;
            WellFormed(v') &&
            (Agrees(v') <==>
             || !create || j >= BLOCK_CNT || v.table[i].blocks[j] != 0
             || FirstFree(v.used, v.sb.dataBlockStart).None?
             || (Live(v.table[i]) && j <= ChainLen(v.table[i].blocks)))
  {
    StepKeepsExclusive(v, GetBlock(i, j, create));
    if create {
      if Live(v.table[i]) && j <= ChainLen(v.table[i].blocks) {
        GetBlockInOrder(v, i, j);
      } else {
        var b := FirstFree(v.used, v.sb.dataBlockStart);
        if j < BLOCK_CNT && v.table[i].blocks[j] == 0 && b.Some? {
          HiddenFromMount(v, i, j, b.value);
          assert v.used[b.value] != MapBlock(v, i, j, create).0.used[b.value];
        }
      }
    }
  }

  /** What disagreement costs: after an out-of-order allocation, a remount and one more
      allocation for any other place, two places share a data block. */
  lemma OutOfOrderThenRemountSharesABlock(v: Volume, i: nat, j: nat, i2: nat, j2: nat)
    requires Consistent(v) && i < |v.table| && j < BLOCK_CNT && v.table[i].blocks[j] == 0
    requires !Live(v.table[i]) || j > ChainLen(v.table[i].blocks)
    requires FirstFree(v.used, v.sb.dataBlockStart).Some?
    requires i2 < |v.table| && j2 < BLOCK_CNT && v.table[i2].blocks[j2] == 0 && (i2 != i || j2 != j)
    ensures var ops := [GetBlock(i, j, true), Remount, GetBlock(i2, j2, true)];
            && CallableRun(v, ops)
            && var t := Run(v, ops).table;
               |t| == |v.table| && Ref(t, i, j) == Ref(t, i2, j2) != 0
  {
    var b := FirstFree(v.used, v.sb.dataBlockStart).value;
    HiddenFromMount(v, i, j, b);
    AllocateKeepsWellFormed(v, i, j, b);
    var v1 := Apply(v, GetBlock(i, j, true));
    var v2 := Apply(v1, Remount);
    var v3 := Apply(v2, GetBlock(i2, j2, true));
    assert v1 == Allocate(v, i, j, b) && v2.used == v.used;
    assert v3 == Allocate(v2, i2, j2, b);
    AllocateKeepsWellFormed(v2, i2, j2, b);
    var ops := [GetBlock(i, j, true), Remount, GetBlock(i2, j2, true)];
    assert ops[1..] == [Remount, GetBlock(i2, j2, true)];
    assert ops[1..][1..] == [GetBlock(i2, j2, true)];
    assert ops[1..][1..][1..] == [];
    assert CallableRun(v3, []) && Run(v3, []) == v3;
    assert CallableRun(v2, ops[1..][1..]) && Run(v2, ops[1..][1..]) == v3;
    assert CallableRun(v1, ops[1..]) && Run(v1, ops[1..]) == v3;
  }
}
