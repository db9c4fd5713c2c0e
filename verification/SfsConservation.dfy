/** Conservation of blocks: free data blocks, block references of the live files and the
    metadata blocks always add up to the partition. */
module SfsConservation {
  import opened SfsLayout
  import opened SfsVolume
  import opened SfsOwnership
  import opened SfsRuns

  function FreeBlocks(used: seq<Byte>, from: nat): (s: set<int>) {
    set b | from <= b < |used| && used[b] == 0
  }

  /** Block references of the first `n` entries that are live, counted one by one. */
  function LiveRefCount(t: seq<FileEntry>, n: nat): nat
    requires n <= |t|
  {
    if n == 0 then 0
    else LiveRefCount(t, n - 1) + if Live(t[n - 1]) then ChainLen(t[n - 1].blocks) else 0
  }

  /** The blocks that the chains of the first `n` entries hold. */
  function ChainedBlocks(t: seq<FileEntry>, n: nat, limit: nat): (s: set<int>)
    requires n <= |t|
  {
    set b | 0 <= b < limit && Chained(t, n, b)
  }

  function SetOf(s: seq<Word>): set<int> {
    set k | 0 <= k < |s| :: s[k]
  }

  lemma {:induction false} DistinctSize(s: seq<Word>)
    requires forall j, k :: 0 <= j < k < |s| ==> s[j] != s[k]
    ensures |SetOf(s)| == |s|
  {
    if s != [] {
      var p, x := s[..|s| - 1], s[|s| - 1];
      DistinctSize(p);
      assert SetOf(s) == SetOf(p) + {x} by {
        assert forall k :: 0 <= k < |p| ==> p[k] == s[k];
        forall y | y in SetOf(s)
          ensures y in SetOf(p) + {x}
        {
          var k :| 0 <= k < |s| && s[k] == y;
          assert k < |p| ==> p[k] == y;
        }
        assert s[|s| - 1] == x;
      }
    }
  }

  lemma {:induction false} IntervalSize(lo: nat, hi: nat, s: set<int>)
    requires lo <= hi
    requires forall b :: b in s <==> lo <= b < hi
    ensures |s| == hi - lo
  {
    if lo == hi {
      assert forall b: int :: b !in s;
    } else {
      IntervalSize(lo, hi - 1, s - {hi - 1});
    }
  }

  /** Two entries of a volume never chain the same block. */
  lemma ChainsAreDisjoint(v: Volume, i: nat, i': nat, b: int)
    requires Consistent(v) && i < |v.table| && i' < |v.table| && i != i'
    requires b in Chain(v.table[i])
    ensures b !in Chain(v.table[i'])
  {
    var c, c' := Chain(v.table[i]), Chain(v.table[i']);
    var k :| 0 <= k < |c| && c[k] == b;
    assert c[k] == Ref(v.table, i, k) != 0;
    forall k' | 0 <= k' < |c'|
      ensures c'[k'] != b
    {
      assert c'[k'] == Ref(v.table, i', k');
    }
  }

  lemma ChainIsDistinct(v: Volume, i: nat)
    requires Consistent(v) && i < |v.table|
    ensures var c := Chain(v.table[i]);
            |SetOf(c)| == |c| && forall b :: b in c ==> v.sb.dataBlockStart <= b < v.sb.partitionSize
  {
    var c := Chain(v.table[i]);
    assert forall k :: 0 <= k < |c| ==> c[k] == Ref(v.table, i, k) != 0;
    DistinctSize(c);
    forall k | 0 <= k < |c|
      ensures v.sb.dataBlockStart <= c[k] < v.sb.partitionSize
    {
      assert SafeEntry(v.sb, v.table[i]) && SafeRef(v.sb, v.table[i].blocks[k]);
    }
  }

  lemma SetOfIsElements(s: seq<Word>, b: int)
    ensures b in SetOf(s) <==> b in s
  {
    if b in s {
      var k :| 0 <= k < |s| && s[k] == b;
    }
  }

  lemma ChainedOnce(v: Volume, n: nat, b: int)
    requires Consistent(v) && 0 < n <= |v.table| && b in Chain(v.table[n - 1])
    ensures !Chained(v.table, n - 1, b)
  {
    forall i | 0 <= i < n - 1
      ensures b !in Chain(v.table[i])
    {
      ChainsAreDisjoint(v, n - 1, i, b);
    }
  }

  lemma DisjointSum<T>(a: set<T>, b: set<T>, c: set<T>)
    requires forall x :: x in c <==> x in a || x in b
    requires forall x :: x in b ==> x !in a
    ensures |c| == |a| + |b|
  {
    assert c == a + b && a !! b;
  }

  lemma ChainAgainstOthers(v: Volume, n: nat, b: int)
    requires Consistent(v) && 0 < n <= |v.table| && Live(v.table[n - 1])
    ensures var c, before := SetOf(Chain(v.table[n - 1])), ChainedBlocks(v.table, n - 1, |v.used|);
            && (b in ChainedBlocks(v.table, n, |v.used|) <==> b in before || b in c)
            && (b in c ==> b !in before)
  {
    var c := Chain(v.table[n - 1]);
    SetOfIsElements(c, b);
    ChainIsDistinct(v, n - 1);
    if b in c {
      ChainedOnce(v, n, b);
    }
    ChainedNext(v.table, n - 1, b);
  }

  lemma OneMoreChain(v: Volume, n: nat)
    requires Consistent(v) && 0 < n <= |v.table| && Live(v.table[n - 1])
    ensures |ChainedBlocks(v.table, n, |v.used|)|
         == |ChainedBlocks(v.table, n - 1, |v.used|)| + |SetOf(Chain(v.table[n - 1]))|
  {
    forall b: int
      ensures var c, before := SetOf(Chain(v.table[n - 1])), ChainedBlocks(v.table, n - 1, |v.used|);
              && (b in ChainedBlocks(v.table, n, |v.used|) <==> b in before || b in c)
              && (b in c ==> b !in before)
    {
      ChainAgainstOthers(v, n, b);
    }
    DisjointSum(ChainedBlocks(v.table, n - 1, |v.used|), SetOf(Chain(v.table[n - 1])),
                ChainedBlocks(v.table, n, |v.used|));
  }

  lemma DeadAddsNothing(t: seq<FileEntry>, n: nat, limit: nat)
    requires 0 < n <= |t| && !Live(t[n - 1])
    ensures ChainedBlocks(t, n, limit) == ChainedBlocks(t, n - 1, limit)
  {
    forall b
      ensures Chained(t, n, b) <==> Chained(t, n - 1, b)
    {
      ChainedNext(t, n - 1, b);
    }
  }

  lemma {:induction false} ChainedBlocksSize(v: Volume, n: nat)
    requires Consistent(v) && n <= |v.table|
    ensures |ChainedBlocks(v.table, n, |v.used|)| == LiveRefCount(v.table, n)
  {
    if n == 0 {
      assert ChainedBlocks(v.table, 0, |v.used|) == {};
    } else {
      ChainedBlocksSize(v, n - 1);
      if Live(v.table[n - 1]) {
        OneMoreChain(v, n);
        ChainIsDistinct(v, n - 1);
      } else {
        DeadAddsNothing(v.table, n, |v.used|);
      }
    }
  }

  /** Conservation in one consistent volume. */
  lemma BlocksAddUp(v: Volume)
    requires Consistent(v)
    ensures |FreeBlocks(v.used, v.sb.dataBlockStart)| + LiveRefCount(v.table, |v.table|) + v.sb.dataBlockStart
            == v.sb.partitionSize
  {
    var ds, ps := v.sb.dataBlockStart, v.sb.partitionSize;
    var free, held := FreeBlocks(v.used, ds), ChainedBlocks(v.table, |v.table|, ps);
    var m := MountedMap(v.sb, v.table);
    ChainedBlocksSize(v, |v.table|);
    forall b | 0 <= b < ps
      ensures ds <= b <==> b in free + held
      ensures b !in free * held
    {
      assert m[b] == v.used[b];
      if b in held {
        var i :| 0 <= i < |v.table| && Live(v.table[i]) && b in Chain(v.table[i]);
        ChainIsDistinct(v, i);
      }
    }
    assert free * held == {};
    IntervalSize(ds, ps, free + held);
  }

  /** Conservation in every state an in-order run reaches. */
  lemma Conservation(v: Volume, ops: seq<Op>)
    requires Consistent(v) && CallableRun(v, ops) && InOrderRun(v, ops)
    ensures var w := Run(v, ops);
            |FreeBlocks(w.used, w.sb.dataBlockStart)| + LiveRefCount(w.table, |w.table|) + w.sb.dataBlockStart
            == v.sb.partitionSize
  {
    RemountAgreement(v, ops);
    BlocksAddUp(Run(v, ops));
    RunKeepsSuperBlock(v, ops);
  }

  lemma {:induction false} RunKeepsSuperBlock(v: Volume, ops: seq<Op>)
    requires CallableRun(v, ops)
    ensures Run(v, ops).sb == v.sb
    decreases |ops|
  {
    if ops != [] {
      RunKeepsSuperBlock(Apply(v, ops[0]), ops[1..]);
    }
  }

  /** The allocator fails exactly when no data block is free. */
  lemma FullIsNoFreeBlock(used: seq<Byte>, from: nat)
    requires from <= |used|
    ensures FirstFree(used, from).None? <==> FreeBlocks(used, from) == {}
  {
    var r := FirstFree(used, from);
    FirstFreeIsLeast(used, from);
    if r.Some? {
      assert r.value in FreeBlocks(used, from);
    }
  }

  // ---------- which failure comes when ----------

  /** Asking for a block says that there is no space exactly when the index is beyond the nine of
      an entry, or a block would have to be allocated and none is free; it says that the index is
      not mapped exactly when it might not allocate. Only otherwise is there a block. */
  lemma MappingFailsExactly(v: Volume, i: nat, j: nat, create: bool)
    requires WellFormed(v) && i < |v.table|
    ensures var m := MapBlock(v, i, j, create).1;
            && (m.NoSpace? <==>
                 (|| j >= BLOCK_CNT
                  || (Ref(v.table, i, j) == 0 && create && FreeBlocks(v.used, v.sb.dataBlockStart) == {})))
            && (m.NotMapped? <==> j < BLOCK_CNT && Ref(v.table, i, j) == 0 && !create)
  {
    FullIsNoFreeBlock(v.used, v.sb.dataBlockStart);
  }
}
