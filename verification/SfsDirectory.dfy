/** The entry table as a directory: over every run it behaves as a finite map from names to
    slots, as long as names have 1 to 15 characters; and exactly what longer names break. */
module SfsDirectory {
  import opened SfsLayout
  import opened SfsVolume
  import opened SfsRuns

  predicate UniqueNames(t: seq<FileEntry>) {
    forall i, i' :: 0 <= i < |t| && 0 <= i' < |t| && Live(t[i]) && Named(t[i'], Name(t[i])) ==> i == i'
  }

  /** The names of the first `n` entries that are live, each with its slot. */
  function DirectoryOf(t: seq<FileEntry>, n: nat): map<Text, int>
    requires n <= |t|
  {
    if n == 0 then map[]
    else if Live(t[n - 1]) then DirectoryOf(t, n - 1)[Name(t[n - 1]) := n - 1]
    else DirectoryOf(t, n - 1)
  }

  function Directory(t: seq<FileEntry>): map<Text, int> {
    DirectoryOf(t, |t|)
  }

  predicate GoodName(fn: Text) {
    1 <= |fn| < NAME_SIZE
  }

  // ---------- the finite map being refined ----------

  /** The least slot below `n`, from `from` on, that no name has. */
  function LeastUnused(taken: set<int>, from: nat, n: nat): (r: Option<nat>)
    requires from <= n
    ensures r.None? ==> forall f :: from <= f < n ==> f in taken
    ensures r.Some? ==> from <= r.value < n && r.value !in taken
    ensures r.Some? ==> forall f :: from <= f < r.value ==> f in taken
    decreases n - from
  {
    if from == n then None
    else if from !in taken then Some(from)
    else LeastUnused(taken, from + 1, n)
  }

  function DirStep(d: map<Text, int>, n: nat, op: Op): map<Text, int> {
    match op
    case Create(fn, _, _) =>
      var f := LeastUnused(d.Values, 0, n);
      if fn in d || f.None? then d else d[fn := f.value]
    case Remove(fn) => d - {fn}
    case _ => d
  }

  function DirRun(d: map<Text, int>, n: nat, ops: seq<Op>): map<Text, int>
    decreases |ops|
  {
    if ops == [] then d else DirRun(DirStep(d, n, ops[0]), n, ops[1..])
  }

  // ---------- the table against the map ----------

  lemma {:induction false} InDirectoryOf(t: seq<FileEntry>, n: nat, fn: Text, i: int)
    requires UniqueNames(t) && n <= |t|
    ensures var d := DirectoryOf(t, n);
            fn in d && d[fn] == i <==> 0 <= i < n && Named(t[i], fn)
  {
    if n > 0 {
      InDirectoryOf(t, n - 1, fn, i);
      assert Live(t[n - 1]) ==> Named(t[n - 1], Name(t[n - 1]));
    }
  }

  /** The directory has `fn` at slot `i` exactly when entry `i` is live and has that name. */
  lemma InDirectory(t: seq<FileEntry>, fn: Text, i: int)
    requires UniqueNames(t)
    ensures fn in Directory(t) && Directory(t)[fn] == i <==> 0 <= i < |t| && Named(t[i], fn)
  {
    InDirectoryOf(t, |t|, fn, i);
  }

  lemma LiveSlots(t: seq<FileEntry>, i: nat)
    requires UniqueNames(t) && i < |t|
    ensures Live(t[i]) <==> i in Directory(t).Values
  {
    var d := Directory(t);
    if Live(t[i]) {
      InDirectory(t, Name(t[i]), i);
    }
    if i in d.Values {
      var fn :| fn in d && d[fn] == i;
      InDirectory(t, fn, i);
    }
  }

  lemma LookupReadsDirectory(t: seq<FileEntry>, fn: Text)
    requires UniqueNames(t)
    ensures fn in Directory(t) <==> FindName(t, fn, 0).Some?
    ensures fn in Directory(t) ==> Directory(t)[fn] == FindName(t, fn, 0).value
  {
    var r := FindName(t, fn, 0);
    FindNameIsLeast(t, fn, 0);
    if r.Some? {
      InDirectory(t, fn, r.value);
    }
    if fn in Directory(t) {
      InDirectory(t, fn, Directory(t)[fn]);
    }
  }

  lemma NewEntryName(fn: Text, perms: int, now: int)
    ensures var e := NewEntry(fn, perms, now);
            Name(e) == fn[..Min(|fn|, NAME_SIZE - 1)] && (Live(e) <==> fn != [])
  {
    PadNameIsTruncation(fn);
  }

  lemma DeadSlotIsUnused(t: seq<FileEntry>)
    requires UniqueNames(t)
    ensures FindDead(t, 0) == LeastUnused(Directory(t).Values, 0, |t|)
  {
    var d := Directory(t);
    forall i | 0 <= i < |t|
      ensures Live(t[i]) <==> i in d.Values
    {
      LiveSlots(t, i);
    }
    SameSearch(t, d.Values, 0);
  }

  lemma {:induction false} SameSearch(t: seq<FileEntry>, taken: set<int>, from: nat)
    requires from <= |t| && forall i :: 0 <= i < |t| ==> (Live(t[i]) <==> i in taken)
    ensures FindDead(t, from) == LeastUnused(taken, from, |t|)
    decreases |t| - from
  {
    if from < |t| {
      SameSearch(t, taken, from + 1);
    }
  }

  /** Creation fails, changing nothing, exactly when the name is present or every slot is
      taken; otherwise it adds exactly this name, at the least unused slot. */
  lemma CreateRefinesMap(v: Volume, fn: Text, perms: int, now: int)
    requires WellFormed(v) && UniqueNames(v.table) && GoodName(fn)
    ensures var t' := AfterCreate(v, fn, perms, now).table;
            && UniqueNames(t')
            && Directory(t') == DirStep(Directory(v.table), |v.table|, Create(fn, perms, now))
    ensures CreateSlot(v.table, fn).None? <==>
              fn in Directory(v.table) || forall i :: 0 <= i < |v.table| ==> i in Directory(v.table).Values
  {
    var t, t' := v.table, AfterCreate(v, fn, perms, now).table;
    LookupReadsDirectory(t, fn);
    DeadSlotIsUnused(t);
    var slot := CreateSlot(t, fn);
    if slot.Some? {
      NewEntryName(fn, perms, now);
      assert fn[..|fn|] == fn;
      AddName(t, slot.value, NewEntry(fn, perms, now));
    }
  }

  lemma AddName(t: seq<FileEntry>, f: nat, e: FileEntry)
    requires UniqueNames(t) && f < |t| && !Live(t[f]) && Live(e)
    requires FindName(t, Name(e), 0).None?
    ensures UniqueNames(t[f := e])
    ensures Directory(t[f := e]) == Directory(t)[Name(e) := f]
  {
    var t' := t[f := e];
    FindNameIsLeast(t, Name(e), 0);
    assert UniqueNames(t');
    var d, d' := Directory(t), Directory(t');
    InDirectory(t', Name(e), f);
    forall fn | fn in d'
      ensures fn == Name(e) || (fn in d && d'[fn] == d[fn])
    {
      InDirectory(t', fn, d'[fn]);
      InDirectory(t, fn, d'[fn]);
    }
    forall fn | fn in d
      ensures fn in d' && fn != Name(e)
    {
      InDirectory(t, fn, d[fn]);
      InDirectory(t', fn, d[fn]);
    }
  }

  /** After removal the name is gone and every other name is where it was. */
  lemma RemoveRefinesMap(v: Volume, fn: Text)
    requires WellFormed(v) && UniqueNames(v.table)
    ensures var t' := AfterRemove(v, fn).table;
            && UniqueNames(t')
            && Directory(t') == Directory(v.table) - {fn}
            && FindName(t', fn, 0).None?
  {
    var t, t' := v.table, AfterRemove(v, fn).table;
    LookupReadsDirectory(t, fn);
    if fn in Directory(t) {
      DropName(t, FindName(t, fn, 0).value);
    }
    LookupReadsDirectory(t', fn);
  }

  lemma DropKeepsUnique(t: seq<FileEntry>, f: nat)
    requires UniqueNames(t) && f < |t|
    ensures UniqueNames(t[f := EMPTY_ENTRY])
  {
    var t' := t[f := EMPTY_ENTRY];
    forall i, i' | 0 <= i < |t'| && 0 <= i' < |t'| && Live(t'[i]) && Named(t'[i'], Name(t'[i]))
      ensures i == i'
    {
      assert Named(t[i'], Name(t[i]));
    }
  }

  lemma DropName(t: seq<FileEntry>, f: nat)
    requires UniqueNames(t) && f < |t| && Live(t[f])
    ensures UniqueNames(t[f := EMPTY_ENTRY])
    ensures Directory(t[f := EMPTY_ENTRY]) == Directory(t) - {Name(t[f])}
  {
    DropKeepsUnique(t, f);
    var t' := t[f := EMPTY_ENTRY];
    var d, d' := Directory(t), Directory(t');
    forall fn | fn in d'
      ensures fn in d && fn != Name(t[f]) && d'[fn] == d[fn]
    {
      InDirectory(t', fn, d'[fn]);
      InDirectory(t, fn, d'[fn]);
      InDirectory(t, fn, f);
    }
    forall fn | fn in d && fn != Name(t[f])
      ensures fn in d'
    {
      InDirectory(t, fn, d[fn]);
      InDirectory(t', fn, d[fn]);
    }
  }

  /** A new file is empty: size 0, no block, the attributes given; no other entry and no cell of
      the map changes. */
  lemma CreatedFileIsEmpty(v: Volume, fn: Text, perms: int, now: int)
    requires WellFormed(v) && UniqueNames(v.table) && GoodName(fn) && CreateSlot(v.table, fn).Some?
    ensures var v' := AfterCreate(v, fn, perms, now);
            && FindName(v'.table, fn, 0).Some?
            && var f := FindName(v'.table, fn, 0).value;
               var e := v'.table[f];
               && e.size == 0 && HoldsNothing(e) && e.perms == ToWord(perms) && e.timestamp == ToWord(now)
               && v'.used == v.used && !Live(v.table[f])
               && forall k :: 0 <= k < |v.table| && k != f ==> v'.table[k] == v.table[k]
  {
    CreatedIsFoundExactly(v, fn, perms, now);
    NewEntryIsTidy(v.sb, fn, perms, now);
  }

  /** Removing a file just created undoes the creation: the directory and the map are as before. */
  lemma RemoveUndoesCreate(v: Volume, fn: Text, perms: int, now: int)
    requires WellFormed(v) && UniqueNames(v.table) && GoodName(fn) && CreateSlot(v.table, fn).Some?
    ensures var v' := AfterRemove(AfterCreate(v, fn, perms, now), fn);
            && UniqueNames(v'.table) && Directory(v'.table) == Directory(v.table)
            && v'.used == v.used
  {
    var v1 := AfterCreate(v, fn, perms, now);
    CreatedFileIsEmpty(v, fn, perms, now);
    CreateRefinesMap(v, fn, perms, now);
    LookupReadsDirectory(v.table, fn);
    WellFormedAfterCreate(v, fn, perms, now);
    RemoveRefinesMap(v1, fn);
    var e := v1.table[FindName(v1.table, fn, 0).value];
    assert ChainLen(e.blocks) == 0;
    ClearNone(v1.used);
    assert Chain(e) == [];
  }

  lemma WellFormedAfterCreate(v: Volume, fn: Text, perms: int, now: int)
    requires WellFormed(v)
    ensures WellFormed(AfterCreate(v, fn, perms, now))
  {
    NewEntryIsTidy(v.sb, fn, perms, now);
  }

  lemma SameNames(t: seq<FileEntry>, i: nat, e: FileEntry)
    requires UniqueNames(t) && i < |t| && e.name == t[i].name
    ensures UniqueNames(t[i := e]) && Directory(t[i := e]) == Directory(t)
  {
    var t' := t[i := e];
    assert forall k :: 0 <= k < |t| ==> t'[k].name == t[k].name;
    SameDirectory(t, t', |t|);
    assert UniqueNames(t') by {
      assert forall k, fn: Text :: 0 <= k < |t| ==> (Named(t'[k], fn) <==> Named(t[k], fn));
    }
  }

  lemma {:induction false} SameDirectory(t: seq<FileEntry>, t': seq<FileEntry>, n: nat)
    requires |t| == |t'| && n <= |t| && forall k :: 0 <= k < |t| ==> t'[k].name == t[k].name
    ensures DirectoryOf(t', n) == DirectoryOf(t, n)
  {
    if n > 0 {
      SameDirectory(t, t', n - 1);
    }
  }

  lemma GetBlockKeepsNames(v: Volume, i: nat, j: nat, create: bool)
    requires WellFormed(v) && i < |v.table| && UniqueNames(v.table)
    ensures var t' := MapBlock(v, i, j, create).0.table;
            |t'| == |v.table| && UniqueNames(t') && Directory(t') == Directory(v.table)
  {
    var t' := MapBlock(v, i, j, create).0.table;
    assert t' == v.table[i := t'[i]];
    SameNames(v.table, i, t'[i]);
  }

  lemma StepRefinesMap(v: Volume, op: Op)
    requires Callable(v, op) && UniqueNames(v.table) && (op.Create? ==> GoodName(op.fn))
    ensures var t' := Apply(v, op).table;
            && |t'| == |v.table|
            && UniqueNames(t')
            && Directory(t') == DirStep(Directory(v.table), |v.table|, op)
  {
    match op
    case Create(fn, perms, now) => CreateRefinesMap(v, fn, perms, now);
    case Remove(fn) => RemoveRefinesMap(v, fn);
    case GetBlock(i, j, create) => GetBlockKeepsNames(v, i, j, create);
    case Update(i, size, timestamp, perms) =>
      SameNames(v.table, i, Updated(v.table[i], size, timestamp, perms));
    case Remount =>
  }

  /** Over any run that creates names of 1 to 15 characters, in or out of order, with or without
      remounts, the table is the finite map that the same operations build. */
  lemma {:induction false} DirectoryRefinesMap(v: Volume, ops: seq<Op>)
    requires CallableRun(v, ops) && UniqueNames(v.table)
    requires forall k :: 0 <= k < |ops| && ops[k].Create? ==> GoodName(ops[k].fn)
    ensures var t' := Run(v, ops).table;
            UniqueNames(t') && Directory(t') == DirRun(Directory(v.table), |v.table|, ops)
    decreases |ops|
  {
    if ops != [] {
      StepRefinesMap(v, ops[0]);
      DirectoryRefinesMap(Apply(v, ops[0]), ops[1..]);
    }
  }

  // ---------- names outside 1 to 15 characters ----------

  lemma NamesAreShort(sb: SuperBlock, e: FileEntry)
    requires SafeEntry(sb, e) && Live(e)
    ensures GoodName(Name(e))
  {
    assert e.name[0] != 0 && e.name[NAME_SIZE - 1] == 0;
  }

  /** The scan compares the full name but the entry stores 15 characters of it. So after a
      successful creation the file is found under its name exactly when that has 1 to 15
      characters. */
  lemma CreatedIsFoundExactly(v: Volume, fn: Text, perms: int, now: int)
    requires WellFormed(v) && UniqueNames(v.table) && CreateSlot(v.table, fn).Some?
    ensures FindName(AfterCreate(v, fn, perms, now).table, fn, 0) == CreateSlot(v.table, fn) <==> GoodName(fn)
  {
    var v' := AfterCreate(v, fn, perms, now);
    if GoodName(fn) {
      CreateRefinesMap(v, fn, perms, now);
      LookupReadsDirectory(v.table, fn);
      DeadSlotIsUnused(v.table);
      LookupReadsDirectory(v'.table, fn);
    } else {
      NewEntryIsTidy(v.sb, fn, perms, now);
      forall i | 0 <= i < |v'.table|
        ensures !Named(v'.table[i], fn)
      {
        assert SafeEntry(v.sb, v'.table[i]);
        if Live(v'.table[i]) {
          NamesAreShort(v.sb, v'.table[i]);
        }
      }
    }
  }

  /** Names stay unique after a successful creation exactly when the stored prefix is empty or
      was not a name already. */
  lemma CreateKeepsNamesUniqueExactly(v: Volume, fn: Text, perms: int, now: int)
    requires WellFormed(v) && UniqueNames(v.table) && CreateSlot(v.table, fn).Some?
    ensures var stored := fn[..Min(|fn|, NAME_SIZE - 1)];
            UniqueNames(AfterCreate(v, fn, perms, now).table) <==>
            fn == [] || FindName(v.table, stored, 0).None?
  {
    var f, e := CreateSlot(v.table, fn).value, NewEntry(fn, perms, now);
    var t' := AfterCreate(v, fn, perms, now).table;
    NewEntryName(fn, perms, now);
    var r := FindName(v.table, Name(e), 0);
    if fn == [] {
      assert forall i :: 0 <= i < |t'| && Live(t'[i]) ==> t'[i] == v.table[i];
    } else if r.None? {
      AddName(v.table, f, e);
    } else {
      assert Named(t'[r.value], Name(t'[f])) && Live(t'[f]) && r.value != f;
    }
  }
}
