/** The block allocator under concurrency: any number of threads run `sfs_get_data_block` and
    `sfs_put_data_block` statement by statement; every run is a sequence of atomic operations. */
module AllocatorThreads {
  import opened SfsLayout
  import opened SfsVolume

  /** Where a thread is. */
  datatype Pc =
    | Idle
    | GetLock                 // before the spin_lock of a get
    | Scan(i: nat)            // at the loop test
    | Probe(i: nat)           // before `used_blocks[i] == 0`
    | Take(i: nat)            // before `used_blocks[i] = 1`
    | GetUnlock(ret: int)     // before the spin_unlock, about to return `ret`
    | PutLock(b: nat)         // before the spin_lock of a put
    | PutClear(b: nat)        // before `used_blocks[b] = 0`
    | PutUnlock(b: nat)       // before the spin_unlock of a put

  /** What happened, in the order of the statements that made it happen. */
  datatype Event = Got(t: nat, b: nat) | Full(t: nat) | Freed(t: nat, b: nat)

  datatype State = State(used: seq<Byte>, lock: Option<nat>, pcs: map<nat, Pc>, log: seq<Event>)

  datatype Action = CallGet(t: nat) | CallPut(t: nat, b: nat) | Run(t: nat)

  function PcOf(s: State, t: nat): Pc {
    if t in s.pcs then s.pcs[t] else Idle
  }

  predicate Enabled(s: State, a: Action) {
    match a
    case CallGet(t) => PcOf(s, t) == Idle
    case CallPut(t, b) => PcOf(s, t) == Idle && b < |s.used|
    case Run(t) =>
      var pc := PcOf(s, t);
      pc != Idle && (pc.GetLock? || pc.PutLock? ==> s.lock == None) &&
      (pc.Probe? || pc.Take? ==> pc.i < |s.used|) && (pc.PutClear? ==> pc.b < |s.used|)
  }

  function Move(s: State, t: nat, pc: Pc): State {
    s.(pcs := s.pcs[t := pc])
  }

  function Next(s: State, ds: nat, a: Action): State
    requires Enabled(s, a)
  {
    match a
    case CallGet(t) => Move(s, t, GetLock)
    case CallPut(t, b) => Move(s, t, PutLock(b))
    case Run(t) => Execute(s, ds, t)
  }

  /** The next statement of thread `t`. */
  function Execute(s: State, ds: nat, t: nat): State
    requires Enabled(s, Run(t))
  {
    match PcOf(s, t)
    case GetLock => Move(s, t, Scan(ds)).(lock := Some(t))
    case Scan(i) =>
      if i < |s.used| then Move(s, t, Probe(i))
      else Move(s, t, GetUnlock(-1)).(log := s.log + [Full(t)])
    case Probe(i) => Move(s, t, if s.used[i] == 0 then Take(i) else Scan(i + 1))
    case Take(i) => Move(s, t, GetUnlock(i)).(used := s.used[i := 1], log := s.log + [Got(t, i)])
    case GetUnlock(_) => Move(s, t, Idle).(lock := None)
    case PutLock(b) => Move(s, t, PutClear(b)).(lock := Some(t))
    case PutClear(b) => Move(s, t, PutUnlock(b)).(used := s.used[b := 0], log := s.log + [Freed(t, b)])
    case PutUnlock(_) => Move(s, t, Idle).(lock := None)
    case Idle => s
  }

  predicate CanRun(s: State, ds: nat, acts: seq<Action>)
    decreases |acts|
  {
    acts == [] || (Enabled(s, acts[0]) && CanRun(Next(s, ds, acts[0]), ds, acts[1..]))
  }

  function After(s: State, ds: nat, acts: seq<Action>): State
    requires CanRun(s, ds, acts)
    decreases |acts|
  {
    if acts == [] then s else After(Next(s, ds, acts[0]), ds, acts[1..])
  }

  function Initial(used: seq<Byte>): State {
    State(used, None, map[], [])
  }

  // ---------- atomic operations ----------

  /** The map after one event. */
  function Effect(used: seq<Byte>, e: Event): (r: seq<Byte>)
    ensures |r| == |used|
  {
    match e
    case Got(_, b) => if b < |used| then used[b := 1] else used
    case Full(_) => used
    case Freed(_, b) => if b < |used| then used[b := 0] else used
  }

  function MapAfter(used: seq<Byte>, log: seq<Event>): (r: seq<Byte>)
    ensures |r| == |used|
  {
    if log == [] then used else Effect(MapAfter(used, log[..|log| - 1]), log[|log| - 1])
  }

  /** The event is what the operation, run alone, does on this map: a get gives the least free
      data block, or finds that there is none. */
  predicate LegalEvent(used: seq<Byte>, ds: nat, e: Event)
    requires ds <= |used|
  {
    match e
    case Got(_, b) => FirstFree(used, ds) == Some(b)
    case Full(_) => FirstFree(used, ds) == None
    case Freed(_, b) => b < |used|
  }

  predicate Legal(used: seq<Byte>, ds: nat, log: seq<Event>)
    requires ds <= |used|
  {
    forall k :: 0 <= k < |log| ==> LegalEvent(MapAfter(used, log[..k]), ds, log[k])
  }

  lemma LegalNext(used: seq<Byte>, ds: nat, log: seq<Event>, e: Event)
    requires ds <= |used| && Legal(used, ds, log) && LegalEvent(MapAfter(used, log), ds, e)
    ensures Legal(used, ds, log + [e]) && MapAfter(used, log + [e]) == Effect(MapAfter(used, log), e)
  {
    var log' := log + [e];
    assert log'[..|log|] == log;
    forall k | 0 <= k < |log'|
      ensures LegalEvent(MapAfter(used, log'[..k]), ds, log'[k])
    {
      assert k < |log| ==> log'[..k] == log[..k] && log'[k] == log[k];
    }
  }

  // ---------- the invariant ----------

  predicate Critical(pc: Pc) {
    pc.Scan? || pc.Probe? || pc.Take? || pc.GetUnlock? || pc.PutClear? || pc.PutUnlock?
  }

  /** What the lock holder's position says about the map: everything before `i` is used. */
  predicate Knows(used: seq<Byte>, ds: nat, log: seq<Event>, t: nat, pc: Pc)
    requires ds <= |used|
  {
    match pc
    case Scan(i) => ds <= i <= |used| && FirstFree(used, ds) == FirstFree(used, i)
    case Probe(i) => ds <= i < |used| && FirstFree(used, ds) == FirstFree(used, i)
    case Take(i) => FirstFree(used, ds) == Some(i)
    case GetUnlock(ret) => log != [] && log[|log| - 1] == if ret < 0 then Full(t) else Got(t, ret)
    case PutLock(b) => b < |used|
    case PutClear(b) => b < |used|
    case PutUnlock(b) => log != [] && log[|log| - 1] == Freed(t, b)
    case _ => true
  }

  predicate Inv(used0: seq<Byte>, ds: nat, s: State)
    requires ds <= |used0|
  {
    && s.used == MapAfter(used0, s.log)
    && Legal(used0, ds, s.log)
    && (forall t :: t in s.pcs ==> (Critical(s.pcs[t]) <==> s.lock == Some(t)))
    && (s.lock.Some? ==> s.lock.value in s.pcs)
    && (forall t :: t in s.pcs ==> Knows(s.used, ds, s.log, t, s.pcs[t]))
  }

  // ---------- each step keeps it ----------

  /** A step of `t` that writes no map cell. */
  lemma QuietStep(used0: seq<Byte>, ds: nat, s: State, t: nat, pc: Pc, lock: Option<nat>)
    requires ds <= |used0| && Inv(used0, ds, s)
    requires Knows(s.used, ds, s.log, t, pc)
    requires lock == if Critical(pc) then Some(t) else if Critical(PcOf(s, t)) then None else s.lock
    requires Critical(pc) ==> s.lock == None || s.lock == Some(t)
    ensures Inv(used0, ds, Move(s, t, pc).(lock := lock))
  {
  }

  /** A step of the lock holder that records an event: nobody else knows anything of the map. */
  lemma LoudStep(used0: seq<Byte>, ds: nat, s: State, t: nat, pc: Pc, e: Event)
    requires ds <= |used0| && Inv(used0, ds, s) && s.lock == Some(t)
    requires LegalEvent(s.used, ds, e) && Critical(pc)
    requires Knows(Effect(s.used, e), ds, s.log + [e], t, pc)
    ensures Inv(used0, ds, Move(s, t, pc).(used := Effect(s.used, e), log := s.log + [e]))
  {
    LegalNext(used0, ds, s.log, e);
    var s' := Move(s, t, pc).(used := Effect(s.used, e), log := s.log + [e]);
    forall r | r in s'.pcs
      ensures Knows(s'.used, ds, s'.log, r, s'.pcs[r])
    {
      if r != t {
        assert !Critical(s.pcs[r]) && Knows(s.used, ds, s.log, r, s.pcs[r]);
      }
    }
  }

  lemma GetKeepsInv(used0: seq<Byte>, ds: nat, s: State, t: nat)
    requires ds <= |used0| && Inv(used0, ds, s) && Enabled(s, Run(t))
    requires var pc := PcOf(s, t); pc.Scan? || pc.Probe? || pc.Take?
    ensures Inv(used0, ds, Execute(s, ds, t))
  {
    assert t in s.pcs && s.lock == Some(t) && Knows(s.used, ds, s.log, t, s.pcs[t]);
    match PcOf(s, t)
    case Scan(i) =>
      if i < |s.used| {
        QuietStep(used0, ds, s, t, Probe(i), s.lock);
      } else {
        LoudStep(used0, ds, s, t, GetUnlock(-1), Full(t));
      }
    case Probe(i) => QuietStep(used0, ds, s, t, if s.used[i] == 0 then Take(i) else Scan(i + 1), s.lock);
    case Take(i) => LoudStep(used0, ds, s, t, GetUnlock(i), Got(t, i));
  }

  lemma LockKeepsInv(used0: seq<Byte>, ds: nat, s: State, t: nat)
    requires ds <= |used0| && Inv(used0, ds, s) && Enabled(s, Run(t))
    requires var pc := PcOf(s, t); !(pc.Scan? || pc.Probe? || pc.Take?)
    ensures Inv(used0, ds, Execute(s, ds, t))
  {
    match PcOf(s, t)
    case GetLock => QuietStep(used0, ds, s, t, Scan(ds), Some(t));
    case GetUnlock(_) => QuietStep(used0, ds, s, t, Idle, None);
    case PutLock(b) => QuietStep(used0, ds, s, t, PutClear(b), Some(t));
    case PutClear(b) => LoudStep(used0, ds, s, t, PutUnlock(b), Freed(t, b));
    case PutUnlock(_) => QuietStep(used0, ds, s, t, Idle, None);
    case Idle =>
  }

  lemma StepKeepsInv(used0: seq<Byte>, ds: nat, s: State, a: Action)
    requires ds <= |used0| && Inv(used0, ds, s) && Enabled(s, a)
    ensures Inv(used0, ds, Next(s, ds, a))
  {
    match a
    case CallGet(t) => QuietStep(used0, ds, s, t, GetLock, s.lock);
    case CallPut(t, b) => QuietStep(used0, ds, s, t, PutLock(b), s.lock);
    case Run(t) =>
      var pc := PcOf(s, t);
      if pc.Scan? || pc.Probe? || pc.Take? {
        GetKeepsInv(used0, ds, s, t);
      } else {
        LockKeepsInv(used0, ds, s, t);
      }
  }

  lemma {:induction false} RunKeepsInv(used0: seq<Byte>, ds: nat, s: State, acts: seq<Action>)
    requires ds <= |used0| && Inv(used0, ds, s) && CanRun(s, ds, acts)
    ensures Inv(used0, ds, After(s, ds, acts))
    decreases |acts|
  {
    if acts != [] {
      StepKeepsInv(used0, ds, s, acts[0]);
      RunKeepsInv(used0, ds, Next(s, ds, acts[0]), acts[1..]);
    }
  }

  // ---------- the main results ----------

  /** Every interleaving is a sequence of atomic gets and puts: each get takes the least block
      free at that moment, each failing get finds none free, and the map is the result. */
  lemma RunsAreAtomic(used0: seq<Byte>, ds: nat, acts: seq<Action>)
    requires ds <= |used0| && CanRun(Initial(used0), ds, acts)
    ensures var s := After(Initial(used0), ds, acts);
            Legal(used0, ds, s.log) && s.used == MapAfter(used0, s.log)
  {
    RunKeepsInv(used0, ds, Initial(used0), acts);
  }

  /** What a get is about to return is what its own atomic step recorded, as the latest event. */
  lemma ReturnsWhatItTook(used0: seq<Byte>, ds: nat, acts: seq<Action>, t: nat)
    requires ds <= |used0| && CanRun(Initial(used0), ds, acts)
    requires PcOf(After(Initial(used0), ds, acts), t).GetUnlock?
    ensures var s := After(Initial(used0), ds, acts);
            var ret := PcOf(s, t).ret;
            s.log != [] && s.log[|s.log| - 1] == if ret < 0 then Full(t) else Got(t, ret)
  {
    RunKeepsInv(used0, ds, Initial(used0), acts);
  }

  /** No thread ever stands before an access outside the map, so only the lock can hold up a
      thread that is inside one of the two functions. */
  lemma OnlyTheLockBlocks(used0: seq<Byte>, ds: nat, acts: seq<Action>, t: nat)
    requires ds <= |used0| && CanRun(Initial(used0), ds, acts)
    ensures var s := After(Initial(used0), ds, acts);
            var pc := PcOf(s, t);
            pc != Idle && !Enabled(s, Run(t)) ==> (pc.GetLock? || pc.PutLock?) && s.lock.Some?
  {
    RunKeepsInv(used0, ds, Initial(used0), acts);
    var s := After(Initial(used0), ds, acts);
    assert t in s.pcs ==> Knows(s.used, ds, s.log, t, s.pcs[t]);
  }

  /** At most one thread is between lock and unlock. */
  lemma OneInside(used0: seq<Byte>, ds: nat, acts: seq<Action>, t: nat, r: nat)
    requires ds <= |used0| && CanRun(Initial(used0), ds, acts)
    requires Critical(PcOf(After(Initial(used0), ds, acts), t)) && Critical(PcOf(After(Initial(used0), ds, acts), r))
    ensures t == r
  {
    RunKeepsInv(used0, ds, Initial(used0), acts);
  }

  lemma MapNext(used0: seq<Byte>, log: seq<Event>, k: nat)
    requires 0 < k <= |log|
    ensures MapAfter(used0, log[..k]) == Effect(MapAfter(used0, log[..k - 1]), log[k - 1])
  {
    assert log[..k][..k - 1] == log[..k - 1];
  }

  lemma TakenOrKept(used: seq<Byte>, ds: nat, e: Event, b: nat)
    requires ds <= |used| && LegalEvent(used, ds, e) && !(e.Freed? && e.b == b)
    requires (e.Got? && e.b == b) || (b < |used| && used[b] != 0)
    ensures b < |used| && Effect(used, e)[b] != 0
  {
  }

  lemma {:induction false} StaysTaken(used0: seq<Byte>, ds: nat, log: seq<Event>, from: nat, k: nat, b: nat)
    requires ds <= |used0| && Legal(used0, ds, log) && from < k <= |log| && log[from].Got? && log[from].b == b
    requires forall m :: from < m < k ==> !(log[m].Freed? && log[m].b == b)
    ensures b < |used0| && MapAfter(used0, log[..k])[b] != 0
  {
    if k > from + 1 {
      StaysTaken(used0, ds, log, from, k - 1, b);
    }
    MapNext(used0, log, k);
    TakenOrKept(MapAfter(used0, log[..k - 1]), ds, log[k - 1], b);
  }

  /** A block is never given out twice without a put of it in between. */
  lemma NeverTwice(used0: seq<Byte>, ds: nat, acts: seq<Action>, i: nat, k: nat)
    requires ds <= |used0| && CanRun(Initial(used0), ds, acts)
    requires i < k < |After(Initial(used0), ds, acts).log|
    requires var log := After(Initial(used0), ds, acts).log;
             log[i].Got? && log[k].Got? && log[i].b == log[k].b
    ensures var log := After(Initial(used0), ds, acts).log;
            exists m :: i < m < k && log[m].Freed? && log[m].b == log[i].b
  {
    var log := After(Initial(used0), ds, acts).log;
    RunsAreAtomic(used0, ds, acts);
    assert LegalEvent(MapAfter(used0, log[..k]), ds, log[k]);
    if forall m :: i < m < k ==> !(log[m].Freed? && log[m].b == log[i].b) {
      StaysTaken(used0, ds, log, i, k, log[i].b);
    }
  }

  // ---------- the map, from the events alone ----------

  predicate About(e: Event, b: nat) {
    !e.Full? && e.b == b
  }

  /** Event `m` is the last one about block `b`. */
  predicate LastAbout(log: seq<Event>, b: nat, m: int) {
    0 <= m < |log| && About(log[m], b) && forall k :: m < k < |log| ==> !About(log[k], b)
  }

  predicate NoneAbout(log: seq<Event>, b: nat) {
    forall k :: 0 <= k < |log| ==> !About(log[k], b)
  }

  lemma {:induction false} LastEventDecides(used: seq<Byte>, log: seq<Event>, b: nat)
    requires b < |used|
    ensures NoneAbout(log, b) ==> MapAfter(used, log)[b] == used[b]
    ensures forall m :: LastAbout(log, b, m) ==> MapAfter(used, log)[b] == if log[m].Freed? then 0 else 1
    ensures NoneAbout(log, b) || exists m :: LastAbout(log, b, m)
  {
    if log != [] {
      var n := |log| - 1;
      var p := log[..n];
      LastEventDecides(used, p, b);
      if About(log[n], b) {
        assert LastAbout(log, b, n);
      } else {
        assert forall m :: LastAbout(log, b, m) <==> LastAbout(p, b, m);
        assert NoneAbout(log, b) <==> NoneAbout(p, b);
      }
    }
  }

  /** After every interleaving a block is free exactly when the last thing that happened to it was
      a put, or nothing happened to it and it was free before. */
  lemma {:induction false} FreeExactly(used0: seq<Byte>, ds: nat, acts: seq<Action>, b: nat)
    requires ds <= |used0| && CanRun(Initial(used0), ds, acts) && b < |used0|
    ensures var s := After(Initial(used0), ds, acts);
            && |s.used| == |used0|
            && (s.used[b] == 0 <==>
                 (|| (exists m :: LastAbout(s.log, b, m) && s.log[m].Freed?)
                  || (NoneAbout(s.log, b) && used0[b] == 0)))
  {
    RunKeepsInv(used0, ds, Initial(used0), acts);
    var s := After(Initial(used0), ds, acts);
    LastEventDecides(used0, s.log, b);
  }

  /** A put about to return has freed its block, as the latest event. */
  lemma {:induction false} PutFreesItsBlock(used0: seq<Byte>, ds: nat, acts: seq<Action>, t: nat)
    requires ds <= |used0| && CanRun(Initial(used0), ds, acts)
    requires PcOf(After(Initial(used0), ds, acts), t).PutUnlock?
    ensures var s := After(Initial(used0), ds, acts);
            var b := PcOf(s, t).b;
            s.log != [] && s.log[|s.log| - 1] == Freed(t, b) && b < |s.used| && s.used[b] == 0
  {
    RunKeepsInv(used0, ds, Initial(used0), acts);
    var s := After(Initial(used0), ds, acts);
    assert Knows(s.used, ds, s.log, t, s.pcs[t]);
    var last := |s.log| - 1;
    assert LegalEvent(MapAfter(used0, s.log[..last]), ds, s.log[last]);
  }

  // ---------- one operation left to itself ----------

  lemma Onwards(s: State, ds: nat, a: Action, acts: seq<Action>)
    requires Enabled(s, a) && CanRun(Next(s, ds, a), ds, acts)
    ensures CanRun(s, ds, [a] + acts) && After(s, ds, [a] + acts) == After(Next(s, ds, a), ds, acts)
  {
    assert ([a] + acts)[1..] == acts;
  }

  predicate AllBy(t: nat, acts: seq<Action>) {
    forall k :: 0 <= k < |acts| ==> acts[k] == Run(t)
  }

  /** A put with the lock free takes three steps of its thread, frees exactly its block, and leaves
      the lock free. */
  lemma PutAlone(s: State, ds: nat, t: nat, b: nat)
    requires PcOf(s, t) == Idle && s.lock == None && b < |s.used|
    ensures var acts := [CallPut(t, b)] + ([Run(t)] + ([Run(t)] + ([Run(t)] + [])));
            CanRun(s, ds, acts)
            && After(s, ds, acts) == State(s.used[b := 0], None, s.pcs[t := Idle], s.log + [Freed(t, b)])
  {
    var s1 := Next(s, ds, CallPut(t, b));
    var s2 := Next(s1, ds, Run(t));
    var s3 := Next(s2, ds, Run(t));
    var s4 := Next(s3, ds, Run(t));
    assert s4.pcs == s.pcs[t := Idle];
    Onwards(s3, ds, Run(t), []);
    Onwards(s2, ds, Run(t), [Run(t)] + []);
    Onwards(s1, ds, Run(t), [Run(t)] + ([Run(t)] + []));
    Onwards(s, ds, CallPut(t, b), [Run(t)] + ([Run(t)] + ([Run(t)] + [])));
  }

  /** What a get that runs alone leaves: the least free block is taken, or nothing is. */
  function GetResult(s: State, ds: nat, t: nat, pc: Pc, lock: Option<nat>): State
    requires ds <= |s.used|
  {
    var r := FirstFree(s.used, ds);
    var pcs := s.pcs[t := pc];
    if r.None? then State(s.used, lock, pcs, s.log + [Full(t)])
    else State(s.used[r.value := 1], lock, pcs, s.log + [Got(t, r.value)])
  }

  function Ret(r: Option<nat>): int {
    if r.None? then -1 else r.value
  }

  lemma {:induction false} ScanAlone(s: State, ds: nat, t: nat, i: nat) returns (acts: seq<Action>)
    requires i <= |s.used| && PcOf(s, t) == Scan(i)
    ensures AllBy(t, acts) && CanRun(s, ds, acts)
    ensures After(s, ds, acts) == GetResult(s, i, t, GetUnlock(Ret(FirstFree(s.used, i))), s.lock)
    decreases |s.used| - i
  {
    var s1 := Next(s, ds, Run(t));
    if i == |s.used| {
      Onwards(s, ds, Run(t), []);
      return [Run(t)] + [];
    }
    var s2 := Next(s1, ds, Run(t));
    var rest;
    if s.used[i] == 0 {
      Onwards(s2, ds, Run(t), []);
      rest := [Run(t)] + [];
      assert s2.pcs[t := GetUnlock(i)] == s.pcs[t := GetUnlock(i)];
    } else {
      rest := ScanAlone(s2, ds, t, i + 1);
      var pc := GetUnlock(Ret(FirstFree(s.used, i)));
      assert s2.pcs[t := pc] == s.pcs[t := pc];
    }
    Onwards(s1, ds, Run(t), rest);
    Onwards(s, ds, Run(t), [Run(t)] + rest);
    return [Run(t)] + ([Run(t)] + rest);
  }

  lemma {:induction false} RunJoins(s: State, ds: nat, xs: seq<Action>, ys: seq<Action>)
    requires CanRun(s, ds, xs) && CanRun(After(s, ds, xs), ds, ys)
    ensures CanRun(s, ds, xs + ys) && After(s, ds, xs + ys) == After(After(s, ds, xs), ds, ys)
    decreases |xs|
  {
    if xs == [] {
      assert xs + ys == ys;
    } else {
      assert (xs + ys)[1..] == xs[1..] + ys;
      RunJoins(Next(s, ds, xs[0]), ds, xs[1..], ys);
    }
  }

  lemma GetFromLock(s: State, ds: nat, t: nat) returns (acts: seq<Action>)
    requires PcOf(s, t) == GetLock && s.lock == None && ds <= |s.used|
    ensures AllBy(t, acts) && CanRun(s, ds, acts)
    ensures After(s, ds, acts) == GetResult(s, ds, t, GetUnlock(Ret(FirstFree(s.used, ds))), Some(t))
  {
    var s1 := Next(s, ds, Run(t));
    var pc := GetUnlock(Ret(FirstFree(s.used, ds)));
    var scan := ScanAlone(s1, ds, t, ds);
    assert s1.pcs[t := pc] == s.pcs[t := pc];
    Onwards(s, ds, Run(t), scan);
    acts := [Run(t)] + scan;
  }

  lemma Unlocks(s: State, ds: nat, t: nat)
    requires PcOf(s, t).GetUnlock?
    ensures CanRun(s, ds, [Run(t)]) && After(s, ds, [Run(t)]) == s.(lock := None, pcs := s.pcs[t := Idle])
  {
    Onwards(s, ds, Run(t), []);
    assert [Run(t)] + [] == [Run(t)];
  }

  /** A get with the lock free finishes by steps of its own thread, takes exactly the least free
      data block if there is one, and leaves the lock free. */
  lemma GetAlone(s: State, ds: nat, t: nat) returns (acts: seq<Action>)
    requires PcOf(s, t) == Idle && s.lock == None && ds <= |s.used|
    ensures acts != [] && acts[0] == CallGet(t) && AllBy(t, acts[1..])
    ensures CanRun(s, ds, acts) && After(s, ds, acts) == GetResult(s, ds, t, Idle, None)
  {
    var s1 := Next(s, ds, CallGet(t));
    var inside := GetFromLock(s1, ds, t);
    var s2 := After(s1, ds, inside);
    Unlocks(s2, ds, t);
    assert s2.pcs[t := Idle] == s.pcs[t := Idle];
    RunJoins(s1, ds, inside, [Run(t)]);
    Onwards(s, ds, CallGet(t), inside + [Run(t)]);
    acts := [CallGet(t)] + (inside + [Run(t)]);
    assert acts[1..] == inside + [Run(t)];
  }

  // ---------- the lock is always given back ----------

  /** How many more statements the holder of the lock needs at most before it gives it back. */
  function StepsToUnlock(pc: Pc, n: nat): int {
    match pc
    case Scan(i) => 2 * (n - i) + 3
    case Probe(i) => 2 * (n - i) + 2
    case Take(_) => 2
    case PutClear(_) => 2
    case GetUnlock(_) => 1
    case PutUnlock(_) => 1
    case _ => 0
  }

  /** Whenever the lock is taken, its holder can take a step, and every step it takes gives the
      lock back or brings it nearer to doing so. */
  lemma {:induction false} HolderFinishes(used0: seq<Byte>, ds: nat, acts: seq<Action>, t: nat)
    requires ds <= |used0| && CanRun(Initial(used0), ds, acts)
    requires After(Initial(used0), ds, acts).lock == Some(t)
    ensures var s := After(Initial(used0), ds, acts);
            Enabled(s, Run(t)) && var s' := Next(s, ds, Run(t));
            && 0 < StepsToUnlock(PcOf(s, t), |used0|)
            && (s'.lock == None || (s'.lock == Some(t) &&
                  StepsToUnlock(PcOf(s', t), |used0|) < StepsToUnlock(PcOf(s, t), |used0|)))
  {
    RunKeepsInv(used0, ds, Initial(used0), acts);
    var s := After(Initial(used0), ds, acts);
    assert Critical(s.pcs[t]) && Knows(s.used, ds, s.log, t, s.pcs[t]);
  }
}
