/** Contents of files on the device bytes: writing to the block mapped for one (file, index)
    changes that block of that file and nothing else, in every reachable state. */
module SfsContent {
  import opened SfsLayout
  import opened SfsVolume
  import opened SfsOwnership
  import opened SfsRuns

  /** A mounted volume together with the bytes of its device. */
  datatype World = World(vol: Volume, disk: seq<Byte>)

  /** The device holds the superblock and the table that the volume shows. */
  predicate Coherent(w: World) {
    && WellFormed(w.vol)
    && Holds(w.disk, w.vol.sb)
    && TableOf(w.disk, w.vol.sb) == w.vol.table
    && DecodeSuperBlock(w.disk[..BLOCK_SIZE]) == w.vol.sb
  }

  function BlockAt(d: seq<Byte>, b: nat): seq<Byte>
    requires (b + 1) * BLOCK_SIZE <= |d|
  {
    d[b * BLOCK_SIZE..(b + 1) * BLOCK_SIZE]
  }

  predicate Mapped(w: World, i: int, j: int) {
    0 <= i < |w.vol.table| && 0 <= j < BLOCK_CNT && Ref(w.vol.table, i, j) != 0
  }

  /** What block `j` of the file in slot `i` contains. */
  function Content(w: World, i: int, j: int): seq<Byte>
    requires Coherent(w) && Mapped(w, i, j)
  {
    assert SafeEntry(w.vol.sb, w.vol.table[i]) && SafeRef(w.vol.sb, w.vol.table[i].blocks[j]);
    BlockAt(w.disk, Ref(w.vol.table, i, j))
  }

  /** File-system operations on the table, and page writes to a mapped block. */
  datatype Action = Meta(op: Op) | Write(slot: nat, index: nat, bytes: seq<Byte>)

  predicate Step(w: World, a: Action, w': World)
    requires Coherent(w)
  {
    match a
    case Meta(op) =>
      && Callable(w.vol, op)
      && w'.vol == Apply(w.vol, op)
      && SameOutsideTable(w.vol.sb, w.disk, w'.disk)
      && TableOf(w'.disk, w.vol.sb) == w'.vol.table
    case Write(i, j, bytes) =>
      && Mapped(w, i, j) && |bytes| == BLOCK_SIZE
      && w'.vol == w.vol
      && (Ref(w.vol.table, i, j) + 1) * BLOCK_SIZE <= |w.disk|
      && w'.disk == Splice(w.disk, Ref(w.vol.table, i, j) * BLOCK_SIZE, bytes)
  }

  // ---------- one step ----------

  lemma RefInData(v: Volume, i: int, j: int)
    requires WellFormed(v) && 0 <= i < |v.table| && 0 <= j < BLOCK_CNT && Ref(v.table, i, j) != 0
    ensures v.sb.dataBlockStart <= Ref(v.table, i, j) < v.sb.partitionSize
  {
    assert SafeEntry(v.sb, v.table[i]) && SafeRef(v.sb, v.table[i].blocks[j]);
  }

  /** An operation never moves a mapped block: it stays where it is or is unmapped. */
  lemma RefsAreStable(v: Volume, op: Op, i: nat, j: nat)
    requires Exclusive(v) && Callable(v, op)
    requires i < |v.table| && j < BLOCK_CNT && Ref(v.table, i, j) != 0
    ensures var t' := Apply(v, op).table;
            |t'| == |v.table| && (Ref(t', i, j) == 0 || Ref(t', i, j) == Ref(v.table, i, j))
  {
  }

  lemma MetaKeepsContent(w: World, op: Op, w': World, i: nat, j: nat)
    requires Coherent(w) && Exclusive(w.vol) && Step(w, Meta(op), w') && Coherent(w')
    requires Mapped(w, i, j) && Mapped(w', i, j)
    ensures Content(w', i, j) == Content(w, i, j)
  {
    RefsAreStable(w.vol, op, i, j);
    RefInData(w.vol, i, j);
  }

  lemma WriteKeepsCoherent(w: World, i: nat, j: nat, bytes: seq<Byte>, w': World)
    requires Coherent(w) && Step(w, Write(i, j, bytes), w')
    ensures Coherent(w')
  {
    RefInData(w.vol, i, j);
    TableUntouched(w.disk, w'.disk, w.vol.sb);
    assert w'.disk[..BLOCK_SIZE] == w.disk[..BLOCK_SIZE];
  }

  lemma MetaKeepsCoherent(w: World, op: Op, w': World)
    requires Coherent(w) && Step(w, Meta(op), w')
    ensures Coherent(w')
  {
    ApplyKeepsWellFormed(w.vol, op);
    assert w'.disk[..BLOCK_SIZE] == w.disk[..BLOCK_SIZE];
  }

  lemma WriteSetsContent(w: World, i: nat, j: nat, bytes: seq<Byte>, w': World)
    requires Coherent(w) && Step(w, Write(i, j, bytes), w')
    ensures Coherent(w') && Content(w', i, j) == bytes
  {
    WriteKeepsCoherent(w, i, j, bytes, w');
    SpliceReadBack(w.disk, Ref(w.vol.table, i, j) * BLOCK_SIZE, bytes);
  }

  lemma BlockElsewhere(d: seq<Byte>, b: nat, bytes: seq<Byte>, b': nat)
    requires b != b' && |bytes| == BLOCK_SIZE && (b + 1) * BLOCK_SIZE <= |d| && (b' + 1) * BLOCK_SIZE <= |d|
    ensures BlockAt(Splice(d, b * BLOCK_SIZE, bytes), b') == BlockAt(d, b')
  {
    SpliceElsewhere(d, b * BLOCK_SIZE, bytes, b' * BLOCK_SIZE, (b' + 1) * BLOCK_SIZE);
  }

  lemma WriteKeepsOther(w: World, i: nat, j: nat, bytes: seq<Byte>, w': World, i': nat, j': nat)
    requires Coherent(w) && Exclusive(w.vol) && Step(w, Write(i, j, bytes), w')
    requires Mapped(w, i', j') && (i' != i || j' != j)
    ensures Coherent(w') && Content(w', i', j') == Content(w, i', j')
  {
    WriteKeepsCoherent(w, i, j, bytes, w');
    RefInData(w.vol, i', j');
    RefInData(w.vol, i, j);
    BlockElsewhere(w.disk, Ref(w.vol.table, i, j), bytes, Ref(w.vol.table, i', j'));
  }

  /** A write to one place sets that content and keeps every other file block, the table and
      the superblock. */
  lemma WriteIsIsolated(w: World, i: nat, j: nat, bytes: seq<Byte>, w': World)
    requires Coherent(w) && Exclusive(w.vol) && Step(w, Write(i, j, bytes), w')
    ensures Coherent(w')
    ensures Content(w', i, j) == bytes
    ensures forall i', j' :: Mapped(w, i', j') && (i' != i || j' != j) ==> Content(w', i', j') == Content(w, i', j')
  {
    WriteSetsContent(w, i, j, bytes, w');
    forall i', j' | Mapped(w, i', j') && (i' != i || j' != j)
      ensures Content(w', i', j') == Content(w, i', j')
    {
      WriteKeepsOther(w, i, j, bytes, w', i', j');
    }
  }

  lemma StepKeepsCoherent(w: World, a: Action, w': World)
    requires Coherent(w) && Step(w, a, w')
    ensures Coherent(w') && w'.vol.sb == w.vol.sb
  {
    match a
    case Meta(op) => MetaKeepsCoherent(w, op, w');
    case Write(i, j, bytes) => WriteKeepsCoherent(w, i, j, bytes, w');
  }

  // ---------- whole runs ----------

  predicate Leads(w: World, a: Action, w': World) {
    Coherent(w) && Step(w, a, w')
  }

  /** `ws` is a run in which `acts[k]` leads from `ws[k]` to `ws[k + 1]`. */
  predicate History(ws: seq<World>, acts: seq<Action>) {
    && |ws| == |acts| + 1
    && forall k {:trigger acts[k]} :: 0 <= k < |acts| ==> Leads(ws[k], acts[k], ws[k + 1])
  }

  predicate Remounts(a: Action) {
    a.Meta? && a.op.Remount?
  }

  predicate AddsInOrder(w: World, a: Action) {
    a.Meta? && Callable(w.vol, a.op) ==> InOrder(w.vol, a.op)
  }

  /** Either blocks are added in any order and there is no remount, or they are added in order
      and there are any number of remounts. */
  predicate Orderly(ws: seq<World>, acts: seq<Action>)
    requires History(ws, acts)
  {
    || (Exclusive(ws[0].vol) && forall k :: 0 <= k < |acts| ==> !Remounts(acts[k]))
    || (Consistent(ws[0].vol) && forall k {:trigger acts[k]} :: 0 <= k < |acts| ==> AddsInOrder(ws[k], acts[k]))
  }

  lemma LeadsKeepsOwners(w: World, a: Action, w': World)
    requires Leads(w, a, w') && Exclusive(w.vol) && !Remounts(a)
    ensures Coherent(w') && Exclusive(w'.vol)
  {
    StepKeepsCoherent(w, a, w');
    if a.Meta? {
      StepKeepsExclusive(w.vol, a.op);
    }
  }

  lemma LeadsKeepsAgreement(w: World, a: Action, w': World)
    requires Leads(w, a, w') && Consistent(w.vol) && AddsInOrder(w, a)
    ensures Coherent(w') && Consistent(w'.vol)
  {
    StepKeepsCoherent(w, a, w');
    if a.Meta? {
      StepKeepsConsistent(w.vol, a.op);
    }
  }

  lemma {:induction false} OneMountKeepsExclusive(ws: seq<World>, acts: seq<Action>, k: nat)
    requires History(ws, acts) && Coherent(ws[0]) && k < |ws|
    requires Exclusive(ws[0].vol) && forall m :: 0 <= m < |acts| ==> !Remounts(acts[m])
    ensures Coherent(ws[k]) && Exclusive(ws[k].vol)
  {
    if k > 0 {
      OneMountKeepsExclusive(ws, acts, k - 1);
      assert !Remounts(acts[k - 1]) && Leads(ws[k - 1], acts[k - 1], ws[k]);
      LeadsKeepsOwners(ws[k - 1], acts[k - 1], ws[k]);
    }
  }

  lemma {:induction false} InOrderKeepsConsistent(ws: seq<World>, acts: seq<Action>, k: nat)
    requires History(ws, acts) && Coherent(ws[0]) && k < |ws|
    requires Consistent(ws[0].vol) && forall m {:trigger acts[m]} :: 0 <= m < |acts| ==> AddsInOrder(ws[m], acts[m])
    ensures Coherent(ws[k]) && Consistent(ws[k].vol)
  {
    if k > 0 {
      InOrderKeepsConsistent(ws, acts, k - 1);
      assert AddsInOrder(ws[k - 1], acts[k - 1]) && Leads(ws[k - 1], acts[k - 1], ws[k]);
      LeadsKeepsAgreement(ws[k - 1], acts[k - 1], ws[k]);
    }
  }

  lemma HistoryKeepsInvariant(ws: seq<World>, acts: seq<Action>, k: nat)
    requires History(ws, acts) && Orderly(ws, acts) && Coherent(ws[0]) && k < |ws|
    ensures Coherent(ws[k]) && Exclusive(ws[k].vol)
  {
    if Exclusive(ws[0].vol) && forall m :: 0 <= m < |acts| ==> !Remounts(acts[m]) {
      OneMountKeepsExclusive(ws, acts, k);
    } else {
      InOrderKeepsConsistent(ws, acts, k);
    }
  }

  predicate WritesTo(a: Action, i: int, j: int) {
    a.Write? && a.slot == i && a.index == j
  }

  lemma StepKeepsContent(w: World, a: Action, w': World, i: nat, j: nat)
    requires Leads(w, a, w') && Exclusive(w.vol) && Coherent(w')
    requires Mapped(w, i, j) && Mapped(w', i, j) && !WritesTo(a, i, j)
    ensures Content(w', i, j) == Content(w, i, j)
  {
    match a
    case Meta(op) => MetaKeepsContent(w, op, w', i, j);
    case Write(i', j', bytes) => WriteKeepsOther(w, i', j', bytes, w', i, j);
  }

  lemma HistoryKeepsContent(ws: seq<World>, acts: seq<Action>, k: nat, i: nat, j: nat)
    requires History(ws, acts) && 0 < k < |ws|
    requires Coherent(ws[k - 1]) && Exclusive(ws[k - 1].vol) && Coherent(ws[k])
    requires Mapped(ws[k - 1], i, j) && Mapped(ws[k], i, j) && !WritesTo(acts[k - 1], i, j)
    ensures Content(ws[k], i, j) == Content(ws[k - 1], i, j)
  {
    assert Leads(ws[k - 1], acts[k - 1], ws[k]);
    StepKeepsContent(ws[k - 1], acts[k - 1], ws[k], i, j);
  }

  /** While a file block stays mapped and nobody writes to that very block of that file, its
      content never changes, whatever happens to all other files and however often an orderly
      volume is mounted again. */
  lemma {:induction false} ContentIsolation(ws: seq<World>, acts: seq<Action>, from: nat, k: nat, i: nat, j: nat)
    requires History(ws, acts) && Orderly(ws, acts) && Coherent(ws[0]) && from <= k < |ws|
    requires forall m :: from <= m <= k ==> Mapped(ws[m], i, j)
    requires forall m :: from <= m < k ==> !WritesTo(acts[m], i, j)
    ensures Coherent(ws[from]) && Coherent(ws[k]) && Content(ws[k], i, j) == Content(ws[from], i, j)
    decreases k - from
  {
    HistoryKeepsInvariant(ws, acts, from);
    HistoryKeepsInvariant(ws, acts, k);
    if from < k {
      ContentIsolation(ws, acts, from, k - 1, i, j);
      HistoryKeepsInvariant(ws, acts, k - 1);
      HistoryKeepsContent(ws, acts, k, i, j);
    }
  }

  /** A file block holds what was last written to it. */
  lemma LastWriteWins(ws: seq<World>, acts: seq<Action>, at: nat, k: nat, i: nat, j: nat)
    requires History(ws, acts) && Orderly(ws, acts) && Coherent(ws[0]) && at < k < |ws|
    requires WritesTo(acts[at], i, j)
    requires forall m :: at < m <= k ==> Mapped(ws[m], i, j)
    requires forall m :: at < m < k ==> !WritesTo(acts[m], i, j)
    ensures Coherent(ws[k]) && Content(ws[k], i, j) == acts[at].bytes
  {
    HistoryKeepsInvariant(ws, acts, at);
    var bytes := acts[at].bytes;
    assert acts[at] == Write(i, j, bytes) && Leads(ws[at], acts[at], ws[at + 1]);
    WriteSetsContent(ws[at], i, j, bytes, ws[at + 1]);
    ContentIsolation(ws, acts, at + 1, k, i, j);
  }
}
