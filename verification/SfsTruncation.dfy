/** What `sfs_update` does to a file's blocks. */
module SfsTruncation {
  import opened SfsLayout
  import opened SfsVolume
  import opened SfsOwnership

  /** The number of blocks `size` bytes need. */
  function BlocksNeeded(size: nat): nat {
    if size % BLOCK_SIZE == 0 then size / BLOCK_SIZE else size / BLOCK_SIZE + 1
  }

  /** The 32-bit round-up is the true one exactly when adding the block size does not wrap;
      when it wraps, the file keeps nothing. */
  lemma RoundUpExactly(size: Word)
    ensures KeptBlocks(size) == BlocksNeeded(size) <==> size + BLOCK_SIZE - 1 < WORD_LIMIT
    ensures size + BLOCK_SIZE - 1 >= WORD_LIMIT ==> KeptBlocks(size) == 0
  {
  }

  /** The blocks of `e` that a file of `size` bytes no longer needs. */
  function Surplus(e: FileEntry, size: Word): set<int> {
    set j | 0 <= j < BLOCK_CNT && j >= BlocksNeeded(size) && e.blocks[j] != 0 :: e.blocks[j]
  }

  /** Exactly the surplus blocks are cut from entry `i` and freed; everything else in the
      table and in the map is as before. */
  predicate TruncatesTo(v: Volume, v': Volume, i: nat, size: Word)
    requires i < |v.table| && |v'.table| == |v.table| && |v'.used| == |v.used|
  {
    && (forall j :: 0 <= j < BLOCK_CNT ==>
          v'.table[i].blocks[j] == if j < BlocksNeeded(size) then v.table[i].blocks[j] else 0)
    && (forall k :: 0 <= k < |v.table| && k != i ==> v'.table[k] == v.table[k])
    && (forall b :: 0 <= b < |v.used| ==>
          v'.used[b] == if b in Surplus(v.table[i], size) then 0 else v.used[b])
    && v'.table[i].size == size
  }

  /** `perms` of an entry stays within the three permission bits exactly when no negative value
      is passed: larger ones are ignored, but a negative `int` passes the test for at most 07. */
  lemma PermsStaySmallExactly(e: FileEntry, size: Option<int>, timestamp: Option<int>, perms: Option<int>)
    requires e.perms <= 7 && (perms.Some? ==> -0x8000_0000 <= perms.value < 0x8000_0000)
    ensures Updated(e, size, timestamp, perms).perms <= 7 <==> perms.None? || perms.value >= 0
    ensures perms.Some? && 0 <= perms.value <= 7 ==> Updated(e, size, timestamp, perms).perms == perms.value
    ensures perms.Some? && perms.value > 7 ==> Updated(e, size, timestamp, perms).perms == e.perms
  {
  }

  /** The other attributes: those passed are stored, except permissions above 07, those not passed
      stay, and the name stays in any case. */
  lemma UpdateStoresAttributes(v: Volume, i: nat, size: Option<int>, timestamp: Option<int>, perms: Option<int>)
    requires i < |v.table|
    ensures var e, e' := v.table[i], AfterUpdate(v, i, size, timestamp, perms).table[i];
            && e'.name == e.name
            && e'.timestamp == (match timestamp case Some(t) => ToWord(t) case None => e.timestamp)
            && e'.size == (match size case Some(s) => ToWord(s) case None => e.size)
            && e'.perms == (match perms case Some(p) => if p > 7 then e.perms else ToWord(p) case None => e.perms)
  {
  }

  /** The number of blocks needed is the least one that has room for the bytes. */
  lemma BlocksNeededIsLeast(size: nat, n: nat)
    ensures BlocksNeeded(size) <= n <==> size <= BLOCK_SIZE * n
  {
  }

  lemma TailIsSurplus(e: FileEntry, size: Word, b: int)
    requires KeptBlocks(size) == BlocksNeeded(size) && b != 0
    ensures b in e.blocks[Min(KeptBlocks(size), BLOCK_CNT)..] <==> b in Surplus(e, size)
  {
    var n := Min(KeptBlocks(size), BLOCK_CNT);
    if b in e.blocks[n..] {
      var k :| 0 <= k < |e.blocks[n..]| && e.blocks[n..][k] == b;
      assert e.blocks[n + k] == b;
    }
    if b in Surplus(e, size) {
      var j :| 0 <= j < BLOCK_CNT && j >= BlocksNeeded(size) && e.blocks[j] == b;
      assert e.blocks[n..][j - n] == b;
    }
  }

  /** Truncation, and exactly when it is right: the size, passed or found in the entry, does not
      wrap when rounded up, or the file has no block that the wrap could lose. */
  lemma UpdateTruncatesExactly(v: Volume, i: nat, size: Option<int>, timestamp: Option<int>, perms: Option<int>)
    requires Exclusive(v) && i < |v.table|
    ensures var s := Or(size, v.table[i].size);
            var v' := AfterUpdate(v, i, size, timestamp, perms);
            TruncatesTo(v, v', i, s) <==> s + BLOCK_SIZE - 1 < WORD_LIMIT || HoldsNothing(v.table[i])
  {
    var e := v.table[i];
    var s := Or(size, e.size);
    var v' := AfterUpdate(v, i, size, timestamp, perms);
    var tail := e.blocks[Min(KeptBlocks(s), BLOCK_CNT)..];
    RoundUpExactly(s);
    if s + BLOCK_SIZE - 1 < WORD_LIMIT {
      forall b | 0 <= b < |v.used|
        ensures v'.used[b] == if b in Surplus(e, s) then 0 else v.used[b]
      {
        if b != 0 {
          TailIsSurplus(e, s, b);
        }
      }
    } else if HoldsNothing(e) {
      assert Surplus(e, s) == {};
      assert forall b :: b in tail ==> b == 0;
    } else {
      var j :| 0 <= j < BLOCK_CNT && e.blocks[j] != 0;
      assert v'.table[i].blocks[j] == 0;
    }
  }
}
