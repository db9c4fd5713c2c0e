/** The blocking open of the `sleep` module: any number of processes open, sleep, are woken or
    interrupted, and close, one statement at a time in any interleaving.

    A process record stands for one use of the file, from its open to its close. A caller that
    opens the file again while it has it open, or a child that closes what its parent opened,
    advances several records; every such run is among the runs considered. */
module BlockingOpen {

  /** Where a process is. Each call of the kernel is one step, and so is each test and each
      assignment of `Already_Open`: another process may come between any two of them. */
  datatype Pc =
    | Outside        // in neither function, without the file
    | Entered        // in module_open, before the O_NONBLOCK test
    | Passed         // before try_module_get
    | AtLoop         // at the head of the while loop
    | WaitEntry      // in wait_event_interruptible, before its first look at the flag
    | Preparing      // about to put itself on the wait queue
    | Checking       // on the queue, about to look at the flag
    | CheckingSignal // on the queue, about to look for a signal
    | Scheduled      // has called schedule: asleep until runnable
    | SignalTest     // before the loop over the signal words
    | Interrupted    // a signal was found; before module_put
    | Taking         // has left the loop; before the flag is set
    | Holding        // open has returned 0
    | Closing        // in module_close, before the flag is cleared
    | Cleared        // before wake_up
    | Awoke          // before the module_put of module_close

  /** `pending` is what ends a sleep; `visible` is what the loop over the signal words finds,
      which looks at the process's own unblocked signals only. */
  datatype Proc = Proc(pc: Pc, nonblock: bool, queued: bool, runnable: bool, pending: bool, visible: bool)

  const IDLE := Proc(Outside, false, false, true, false, false)

  datatype State = State(open: bool, refs: int, procs: map<nat, Proc>)

  const INITIAL := State(false, 0, map[])

  datatype Action =
    | Spawn(pid: nat)
    | Open(pid: nat, nonblock: bool)
    | Close(pid: nat)
    | Signal(pid: nat, visible: bool)
    | HandleSignals(pid: nat)
    | Advance(pid: nat)   // the next statement of module_open or module_close

  predicate Asleep(q: Proc) {
    q.pc == Scheduled && !q.runnable
  }

  /** What a process with record `q` may do. */
  predicate May(q: Proc, a: Action) {
    match a
    case Spawn(_) => q == IDLE
    case Open(_, _) => q.pc == Outside
    case Close(_) => q.pc == Holding
    case Signal(_, _) => true
    case HandleSignals(_) => q.pc == Outside || q.pc == Holding
    case Advance(_) => q.pc != Outside && q.pc != Holding && !Asleep(q)
  }

  predicate Enabled(s: State, a: Action) {
    if a.Spawn? then a.pid !in s.procs else a.pid in s.procs && May(s.procs[a.pid], a)
  }

  /** `wake_up`: every process asleep on the queue becomes runnable and leaves the queue. */
  function Woken(q: Proc): Proc {
    if q.queued && !q.runnable then q.(queued := false, runnable := true) else q
  }

  function WakeAll(procs: map<nat, Proc>): map<nat, Proc> {
    map p | p in procs :: Woken(procs[p])
  }

  /** Leaving `wait_event_interruptible`. */
  function LeaveWait(q: Proc): Proc {
    q.(pc := SignalTest, queued := false, runnable := true)
  }

  /** What one step does: the new record of the process, the flag, the change of the reference
      count, and whether it wakes the queue. */
  datatype Effect = Effect(proc: Proc, open: bool, delta: int, wakes: bool)

  /** The next statement of a process with record `q`, when the flag is `open`. */
  function Statement(q: Proc, open: bool): Effect {
    match q.pc
    case Entered => Effect(q.(pc := if q.nonblock && open then Outside else Passed), open, 0, false)
    case Passed => Effect(q.(pc := AtLoop), open, 1, false)
    case AtLoop => Effect(q.(pc := if open then WaitEntry else Taking), open, 0, false)
    case Taking => Effect(q.(pc := Holding), true, 0, false)
    case WaitEntry => Effect(if open then q.(pc := Preparing) else LeaveWait(q), open, 0, false)
    case Preparing => Effect(q.(pc := Checking, queued := true, runnable := false), open, 0, false)
    case Checking => Effect(if open then q.(pc := CheckingSignal) else LeaveWait(q), open, 0, false)
    case CheckingSignal => Effect(if q.pending then LeaveWait(q) else q.(pc := Scheduled), open, 0, false)
    case Scheduled => Effect(q.(pc := Preparing), open, 0, false)
    case SignalTest => Effect(q.(pc := if q.visible then Interrupted else AtLoop), open, 0, false)
    case Interrupted => Effect(q.(pc := Outside), open, -1, false)
    case Closing => Effect(q.(pc := Cleared), false, 0, false)
    case Cleared => Effect(q.(pc := Awoke), open, 0, true)
    case Awoke => Effect(q.(pc := Outside), open, -1, false)
    case _ => Effect(q, open, 0, false)
  }

  /** The record that a step of process `p` starts from. */
  function Before(s: State, p: nat): Proc {
    if p in s.procs then s.procs[p] else IDLE
  }

  function EffectOf(q: Proc, open: bool, a: Action): Effect {
    match a
    case Spawn(_) => Effect(IDLE, open, 0, false)
    case Open(_, nb) => Effect(q.(pc := Entered, nonblock := nb), open, 0, false)
    case Close(_) => Effect(q.(pc := Closing), open, 0, false)
    case Signal(_, vis) => Effect(q.(pending := true, visible := q.visible || vis, runnable := true), open, 0, false)
    case HandleSignals(_) => Effect(q.(pending := false, visible := false), open, 0, false)
    case Advance(_) => Statement(q, open)
  }

  function Put(s: State, p: nat, f: Effect): State {
    State(f.open, s.refs + f.delta, (if f.wakes then WakeAll(s.procs) else s.procs)[p := f.proc])
  }

  function Next(s: State, a: Action): State
    requires Enabled(s, a)
  {
    Put(s, a.pid, EffectOf(Before(s, a.pid), s.open, a))
  }

  // ---------- runs ----------

  predicate CanRun(s: State, acts: seq<Action>)
    decreases |acts|
  {
    acts == [] || (Enabled(s, acts[0]) && CanRun(Next(s, acts[0]), acts[1..]))
  }

  function After(s: State, acts: seq<Action>): State
    requires CanRun(s, acts)
    decreases |acts|
  {
    if acts == [] then s else After(Next(s, acts[0]), acts[1..])
  }

  /** The states a run passes through, from the first to the last. */
  function Trail(s: State, acts: seq<Action>): (t: seq<State>)
    requires CanRun(s, acts)
    ensures |t| == |acts| + 1 && t[0] == s && t[|acts|] == After(s, acts)
    decreases |acts|
  {
    if acts == [] then [s] else [s] + Trail(Next(s, acts[0]), acts[1..])
  }

  /** `t` is a sequence of states that the actions lead through one after the other. */
  predicate Follows(t: seq<State>, acts: seq<Action>) {
    |t| == |acts| + 1 &&
    forall k {:trigger acts[k]} :: 0 <= k < |acts| ==> Enabled(t[k], acts[k]) && t[k + 1] == Next(t[k], acts[k])
  }

  lemma {:induction false} TrailFollows(s: State, acts: seq<Action>)
    requires CanRun(s, acts)
    ensures Follows(Trail(s, acts), acts)
    decreases |acts|
  {
    if acts != [] {
      var t, rest := Trail(s, acts), Trail(Next(s, acts[0]), acts[1..]);
      TrailFollows(Next(s, acts[0]), acts[1..]);
      assert t[1..] == rest;
      forall k {:trigger acts[k]} | 0 <= k < |acts|
        ensures Enabled(t[k], acts[k]) && t[k + 1] == Next(t[k], acts[k])
      {
        if k > 0 {
          assert acts[1..][k - 1] == acts[k] && rest[k - 1] == t[k] && rest[k] == t[k + 1];
        }
      }
    }
  }

  // ---------- the invariant ----------

  predicate Owns(q: Proc) {
    q.pc == Holding || q.pc == Closing
  }

  /** Has left the loop of `module_open` and not given the file back. */
  predicate PastLoop(q: Proc) {
    q.pc == Taking || Owns(q)
  }

  /** Between the get and the put of the module reference. */
  predicate Refers(q: Proc) {
    q.pc != Outside && q.pc != Entered && q.pc != Passed
  }

  function Referrers(procs: map<nat, Proc>): set<nat> {
    set p | p in procs && Refers(procs[p])
  }

  predicate SomeoneOwns(procs: map<nat, Proc>) {
    exists p :: p in procs && Owns(procs[p])
  }

  predicate SomeoneWillWake(procs: map<nat, Proc>) {
    exists c :: c in procs && procs[c].pc == Cleared
  }

  predicate RefsExact(s: State) {
    s.refs == |Referrers(s.procs)|
  }

  /** Inside `wait_event_interruptible`, with the queue entry made. */
  predicate Waiting(q: Proc) {
    q.pc == Checking || q.pc == CheckingSignal || q.pc == Scheduled
  }

  /** A process that is not runnable is on the queue, no signal is pending once it sleeps, and
      only one whose loop finds a signal is about to return -EINTR. */
  predicate QueueSound(q: Proc) {
    && (!q.runnable ==> q.queued && Waiting(q))
    && (q.queued ==> q.pc == Preparing || Waiting(q))
    && (Asleep(q) ==> !q.pending)
    && (q.visible ==> q.pending)
    && (q.pc == Interrupted ==> q.visible)
  }

  /** The process saw the flag set on its way to sleep, and has not been woken since. */
  predicate Committed(q: Proc) {
    (q.pc == CheckingSignal || q.pc == Scheduled) && !q.runnable
  }

  /** Who saw the flag set and is not runnable is going to be woken. */
  predicate NoLostWakeUp(s: State) {
    forall p :: p in s.procs && Committed(s.procs[p]) ==>
      s.open || SomeoneWillWake(s.procs)
  }

  predicate Inv(s: State) {
    && (s.open ==> SomeoneOwns(s.procs))
    && RefsExact(s)
    && (forall p :: p in s.procs ==> QueueSound(s.procs[p]))
    && NoLostWakeUp(s)
  }

  // ---------- one process ----------

  /** A step finds the flag clear at the end of the loop, ... */
  predicate Finds(q: Proc, open: bool, a: Action) {
    a.Advance? && q.pc == AtLoop && !open
  }

  /** ... sets it, ... */
  predicate Sets(q: Proc, a: Action) {
    a.Advance? && q.pc == Taking
  }

  /** ... or clears it again. */
  predicate Clears(q: Proc, a: Action) {
    a.Advance? && q.pc == Closing
  }

  lemma StepHolds(q: Proc, open: bool, a: Action)
    requires May(q, a)
    ensures var f := EffectOf(q, open, a);
            && f.open == (Sets(q, a) || (open && !Clears(q, a)))
            && (Owns(f.proc) <==> Sets(q, a) || (Owns(q) && !Clears(q, a)))
            && (PastLoop(f.proc) <==> Finds(q, open, a) || (PastLoop(q) && !Clears(q, a)))
  {
    match a
    case Advance(_) => StatementHolds(q, open);
    case _ =>
  }

  lemma StatementHolds(q: Proc, open: bool)
    requires q.pc != Outside && q.pc != Holding
    ensures var f := Statement(q, open);
            && f.open == (q.pc == Taking || (open && q.pc != Closing))
            && (Owns(f.proc) <==> q.pc == Taking)
            && (PastLoop(f.proc) <==> q.pc == Taking || (q.pc == AtLoop && !open))
  {
    match q.pc
    case WaitEntry =>
    case Checking =>
    case _ =>
  }

  lemma StepCounts(q: Proc, open: bool, a: Action)
    requires May(q, a)
    ensures var f := EffectOf(q, open, a);
            f.delta == (if Refers(f.proc) then 1 else 0) - (if Refers(q) then 1 else 0)
  {
    match a
    case Advance(_) => StatementCounts(q, open);
    case _ =>
  }

  lemma StatementCounts(q: Proc, open: bool)
    ensures var f := Statement(q, open);
            f.delta == (if Refers(f.proc) then 1 else 0) - (if Refers(q) then 1 else 0)
  {
    match q.pc
    case Entered =>
    case Passed =>
    case AtLoop =>
    case WaitEntry =>
    case Checking =>
    case CheckingSignal =>
    case SignalTest =>
    case _ =>
  }

  lemma StepQueues(q: Proc, open: bool, a: Action)
    requires May(q, a) && QueueSound(q)
    ensures QueueSound(EffectOf(q, open, a).proc)
  {
    match a
    case Advance(_) => StatementQueues(q, open);
    case _ =>
  }

  lemma StatementQueues(q: Proc, open: bool)
    requires !Asleep(q) && QueueSound(q)
    ensures QueueSound(Statement(q, open).proc)
  {
    match q.pc
    case CheckingSignal =>
    case Checking =>
    case _ =>
  }

  lemma StepCommits(q: Proc, open: bool, a: Action)
    requires May(q, a)
    ensures var f := EffectOf(q, open, a);
            && (Committed(f.proc) ==> Committed(q) || f.open)
            && (open && !f.open ==> f.proc.pc == Cleared)
            && (q.pc == Cleared ==> f.proc.pc == Cleared || f.wakes)
            && (f.wakes ==> !Committed(f.proc))
  {
    match a
    case Advance(_) => StatementCommits(q, open);
    case _ =>
  }

  lemma StatementCommits(q: Proc, open: bool)
    requires q.pc != Outside && q.pc != Holding && !Asleep(q)
    ensures var f := Statement(q, open);
            && (Committed(f.proc) ==> Committed(q) || f.open)
            && (open && !f.open ==> f.proc.pc == Cleared)
            && (q.pc == Cleared ==> f.wakes)
            && (f.wakes ==> !Committed(f.proc))
  {
  }

  // ---------- each step keeps the invariant ----------

  lemma OthersAfter(s: State, p: nat, f: Effect, r: nat)
    requires r in s.procs && r != p
    ensures var s' := Put(s, p, f);
            && r in s'.procs && s'.procs[r].pc == s.procs[r].pc && s'.procs[r].nonblock == s.procs[r].nonblock
            && (s'.procs[r] == s.procs[r] || (f.wakes && s'.procs[r] == Woken(s.procs[r])))
            && (f.wakes ==> s'.procs[r] == Woken(s.procs[r]))
  {
  }

  /** The processes other than the one that takes a step stay where they are. */
  lemma OthersStay(s: State, a: Action)
    requires Enabled(s, a)
    ensures Next(s, a).procs.Keys == s.procs.Keys + {a.pid}
    ensures Next(s, a).procs[a.pid] == EffectOf(Before(s, a.pid), s.open, a).proc
    ensures forall r :: r in s.procs && r != a.pid ==>
              r in Next(s, a).procs && Next(s, a).procs[r].pc == s.procs[r].pc
  {
    forall r | r in s.procs && r != a.pid
      ensures r in Next(s, a).procs && Next(s, a).procs[r].pc == s.procs[r].pc
    {
      OthersAfter(s, a.pid, EffectOf(Before(s, a.pid), s.open, a), r);
    }
  }

  lemma OwnerKept(s: State, a: Action)
    requires Enabled(s, a) && (s.open ==> SomeoneOwns(s.procs))
    ensures Next(s, a).open ==> SomeoneOwns(Next(s, a).procs)
  {
    var q, s' := Before(s, a.pid), Next(s, a);
    StepHolds(q, s.open, a);
    OthersStay(s, a);
    if Sets(q, a) {
      assert Owns(s'.procs[a.pid]);
    } else if s'.open {
      var h :| h in s.procs && Owns(s.procs[h]);
      assert Owns(s'.procs[h]);
    }
  }

  lemma RefsAfter(procs: map<nat, Proc>, procs': map<nat, Proc>, p: nat)
    requires p in procs' && procs'.Keys == procs.Keys + {p}
    requires forall r :: r in procs && r != p ==> (Refers(procs'[r]) <==> Refers(procs[r]))
    ensures |Referrers(procs')| == |Referrers(procs)|
              + (if Refers(procs'[p]) then 1 else 0) - (if p in procs && Refers(procs[p]) then 1 else 0)
  {
    WithAndWithout(Referrers(procs'), p);
    WithAndWithout(Referrers(procs), p);
    assert Referrers(procs') - {p} == Referrers(procs) - {p};
  }

  lemma WithAndWithout(s: set<nat>, p: nat)
    ensures |s| == |s - {p}| + (if p in s then 1 else 0)
  {
    if p in s {
      assert s == (s - {p}) + {p};
    } else {
      assert s == s - {p};
    }
  }

  lemma RefsKept(s: State, p: nat, f: Effect)
    requires RefsExact(s)
    requires f.delta == (if Refers(f.proc) then 1 else 0) - (if Refers(Before(s, p)) then 1 else 0)
    ensures RefsExact(Put(s, p, f))
  {
    var s' := Put(s, p, f);
    forall r | r in s.procs && r != p
      ensures r in s'.procs && (Refers(s'.procs[r]) <==> Refers(s.procs[r]))
    {
      OthersAfter(s, p, f, r);
    }
    RefsAfter(s.procs, s'.procs, p);
  }

  lemma QueueKept(s: State, p: nat, f: Effect)
    requires (forall r :: r in s.procs ==> QueueSound(s.procs[r])) && QueueSound(f.proc)
    ensures forall r :: r in Put(s, p, f).procs ==> QueueSound(Put(s, p, f).procs[r])
  {
    forall r | r in s.procs && r != p
      ensures QueueSound(Put(s, p, f).procs[r])
    {
      OthersAfter(s, p, f, r);
    }
  }

  lemma WakeUpKept(s: State, p: nat, f: Effect)
    requires NoLostWakeUp(s) && forall r :: r in s.procs ==> QueueSound(s.procs[r])
    requires var q := Before(s, p);
             && (Committed(f.proc) ==> Committed(q) || f.open)
             && (s.open && !f.open ==> f.proc.pc == Cleared)
             && (q.pc == Cleared ==> f.proc.pc == Cleared || f.wakes)
             && (f.wakes ==> !Committed(f.proc))
    ensures NoLostWakeUp(Put(s, p, f))
  {
    var s' := Put(s, p, f);
    assert s'.procs[p] == f.proc;
    forall r | r in s'.procs && Committed(s'.procs[r])
      ensures s'.open || SomeoneWillWake(s'.procs)
    {
      if r != p {
        OthersAfter(s, p, f, r);
      }
      assert !f.wakes;
      if !s'.open {
        assert r in s.procs && Committed(s.procs[r]);
        if !s.open {
          var c :| c in s.procs && s.procs[c].pc == Cleared;
          assert s'.procs[c].pc == Cleared;
        }
      }
    }
  }

  lemma StepKeepsInv(s: State, a: Action)
    requires Inv(s) && Enabled(s, a)
    ensures Inv(Next(s, a))
  {
    var q := Before(s, a.pid);
    var f := EffectOf(q, s.open, a);
    OwnerKept(s, a);
    StepCounts(q, s.open, a);
    StepQueues(q, s.open, a);
    StepCommits(q, s.open, a);
    RefsKept(s, a.pid, f);
    QueueKept(s, a.pid, f);
    WakeUpKept(s, a.pid, f);
  }

  lemma {:induction false} RunKeepsInv(s: State, acts: seq<Action>)
    requires Inv(s) && CanRun(s, acts)
    ensures Inv(After(s, acts))
    decreases |acts|
  {
    if acts != [] {
      StepKeepsInv(s, acts[0]);
      RunKeepsInv(Next(s, acts[0]), acts[1..]);
    }
  }

  lemma InitialInv()
    ensures Inv(INITIAL)
  {
    assert Referrers(INITIAL.procs) == {};
  }

  // ---------- one at a time ----------

  predicate OneAtMost(s: State) {
    forall p, q :: p in s.procs && q in s.procs && PastLoop(s.procs[p]) && PastLoop(s.procs[q]) ==> p == q
  }

  predicate FlagExact(s: State) {
    s.open <==> SomeoneOwns(s.procs)
  }

  /** A process finds the flag clear while another has found it clear and not yet set it. */
  predicate Overtakes(s: State, a: Action) {
    Finds(Before(s, a.pid), s.open, a) && exists r :: r in s.procs && s.procs[r].pc == Taking
  }

  /** `p` steps; whoever else is past the loop was so before. */
  lemma OneAfter(s: State, s': State, p: nat)
    requires OneAtMost(s) && s'.procs.Keys == s.procs.Keys + {p}
    requires forall r :: r in s.procs && r != p ==> (PastLoop(s'.procs[r]) <==> PastLoop(s.procs[r]))
    requires PastLoop(s'.procs[p]) ==> forall r :: r in s.procs && r != p ==> !PastLoop(s.procs[r])
    ensures OneAtMost(s')
  {
  }

  lemma StepKeepsOne(s: State, a: Action)
    requires Enabled(s, a) && OneAtMost(s) && FlagExact(s) && !Overtakes(s, a)
    ensures OneAtMost(Next(s, a))
  {
    var p, q, s' := a.pid, Before(s, a.pid), Next(s, a);
    StepHolds(q, s.open, a);
    OthersStay(s, a);
    forall r | PastLoop(s'.procs[p]) && r in s.procs && r != p
      ensures !PastLoop(s.procs[r])
    {
      if !PastLoop(q) {
        assert !s.open && s.procs[r].pc != Taking;
      }
    }
    OneAfter(s, s', p);
  }

  lemma OvertakingMakesTwo(s: State, a: Action)
    requires Enabled(s, a) && Overtakes(s, a)
    ensures !OneAtMost(Next(s, a))
  {
    var s' := Next(s, a);
    StepHolds(Before(s, a.pid), s.open, a);
    OthersStay(s, a);
    var r :| r in s.procs && s.procs[r].pc == Taking;
    assert PastLoop(s'.procs[a.pid]) && PastLoop(s'.procs[r]);
  }

  lemma StepKeepsFlag(s: State, a: Action)
    requires Enabled(s, a) && OneAtMost(s) && FlagExact(s) && OneAtMost(Next(s, a))
    ensures FlagExact(Next(s, a))
  {
    var q, s' := Before(s, a.pid), Next(s, a);
    StepHolds(q, s.open, a);
    OthersStay(s, a);
    OwnerKept(s, a);
    if SomeoneOwns(s'.procs) {
      var h :| h in s'.procs && Owns(s'.procs[h]);
      if h != a.pid {
        assert Owns(s.procs[h]);
      }
    }
  }

  lemma {:induction false} OneAtATime(t: seq<State>, acts: seq<Action>, k: nat)
    requires Follows(t, acts) && k <= |acts| && OneAtMost(t[0]) && FlagExact(t[0])
    requires forall i {:trigger acts[i]} :: 0 <= i < k ==> !Overtakes(t[i], acts[i])
    ensures OneAtMost(t[k]) && FlagExact(t[k])
  {
    if k > 0 {
      OneAtATime(t, acts, k - 1);
      var a := acts[k - 1];
      StepKeepsOne(t[k - 1], a);
      StepKeepsFlag(t[k - 1], a);
    }
  }

  lemma {:induction false} NoneOvertakes(t: seq<State>, acts: seq<Action>, k: nat)
    requires Follows(t, acts) && k <= |acts| && FlagExact(t[0])
    requires forall i :: 0 <= i <= k ==> OneAtMost(t[i])
    ensures FlagExact(t[k])
    ensures forall i {:trigger acts[i]} :: 0 <= i < k ==> !Overtakes(t[i], acts[i])
  {
    if k > 0 {
      NoneOvertakes(t, acts, k - 1);
      var a := acts[k - 1];
      if Overtakes(t[k - 1], a) {
        OvertakingMakesTwo(t[k - 1], a);
      } else {
        StepKeepsFlag(t[k - 1], a);
      }
    }
  }

  // ---------- the main results ----------

  /** The file is meant to be open once at a time. Over every run, at most one process has left
      the loop without having given the file back, if and only if no process ever finds the flag
      clear while another is between finding it clear and setting it. */
  lemma {:induction false} OneHolderExactly(acts: seq<Action>)
    requires CanRun(INITIAL, acts)
    ensures var t := Trail(INITIAL, acts);
            (forall k :: 0 <= k <= |acts| ==> OneAtMost(t[k]))
            <==> (forall k {:trigger acts[k]} :: 0 <= k < |acts| ==> !Overtakes(t[k], acts[k]))
    ensures var t := Trail(INITIAL, acts);
            (forall k {:trigger acts[k]} :: 0 <= k < |acts| ==> !Overtakes(t[k], acts[k]))
            ==> forall k :: 0 <= k <= |acts| ==> FlagExact(t[k])
  {
    var t := Trail(INITIAL, acts);
    TrailFollows(INITIAL, acts);
    if forall k {:trigger acts[k]} :: 0 <= k < |acts| ==> !Overtakes(t[k], acts[k]) {
      forall k | 0 <= k <= |acts|
        ensures OneAtMost(t[k]) && FlagExact(t[k])
      {
        OneAtATime(t, acts, k);
      }
    } else if forall k :: 0 <= k <= |acts| ==> OneAtMost(t[k]) {
      NoneOvertakes(t, acts, |acts|);
    }
  }

  /** A step that changes the flag and its own process only. */
  lemma StepsAlone(s: State, p: nat, q: Proc, open: bool)
    requires p in s.procs && May(s.procs[p], Advance(p)) && Statement(s.procs[p], s.open) == Effect(q, open, 0, false)
    ensures Next(s, Advance(p)) == s.(open := open, procs := s.procs[p := q])
  {
  }

  lemma ThreeSteps(s: State, a: Action, b: Action, c: Action)
    requires Enabled(s, a) && Enabled(Next(s, a), b) && Enabled(Next(Next(s, a), b), c)
    ensures CanRun(s, [a, b, c]) && After(s, [a, b, c]) == Next(Next(Next(s, a), b), c)
  {
    var s2 := Next(Next(s, a), b);
    assert [c][1..] == [] && [b, c][1..] == [c] && [a, b, c][1..] == [b, c];
    assert CanRun(s2, [c]) && After(s2, [c]) == Next(s2, c);
  }

  /** Overtaking does no good: both processes go on to hold the file. */
  lemma OvertakenBothHold(s: State, p: nat, r: nat)
    requires p in s.procs && s.procs[p].pc == AtLoop && !s.open
    requires r in s.procs && s.procs[r].pc == Taking
    ensures var acts := [Advance(p), Advance(p), Advance(r)];
            CanRun(s, acts) && var s' := After(s, acts);
            p in s'.procs && r in s'.procs && s'.procs[p].pc == Holding && s'.procs[r].pc == Holding
  {
    var s1 := Next(s, Advance(p));
    StepsAlone(s, p, s.procs[p].(pc := Taking), false);
    var s2 := Next(s1, Advance(p));
    StepsAlone(s1, p, s.procs[p].(pc := Holding), true);
    StepsAlone(s2, r, s.procs[r].(pc := Holding), true);
    ThreeSteps(s, Advance(p), Advance(p), Advance(r));
  }

  /** In every reachable state the flag is set only while somebody holds the file, and the
      reference count is the number of processes between get and put. */
  lemma {:induction false} RefsAreExact(acts: seq<Action>)
    requires CanRun(INITIAL, acts)
    ensures var s := After(INITIAL, acts);
            && (s.open ==> exists p :: p in s.procs && Owns(s.procs[p]))
            && s.refs == |set p | p in s.procs && Refers(s.procs[p])|
  {
    InitialInv();
    RunKeepsInv(INITIAL, acts);
    var s := After(INITIAL, acts);
    assert Referrers(s.procs) == set p | p in s.procs && Refers(s.procs[p]);
  }

  /** In every reachable state a sleeping process has no signal pending, and either the file is
      held or a closer is about to wake it. */
  lemma {:induction false} SleepersWillWake(acts: seq<Action>, p: nat)
    requires CanRun(INITIAL, acts)
    requires p in After(INITIAL, acts).procs && Asleep(After(INITIAL, acts).procs[p])
    ensures var s := After(INITIAL, acts);
            && !s.procs[p].pending
            && ((s.open && exists h :: h in s.procs && Owns(s.procs[h]))
                || exists c :: c in s.procs && s.procs[c].pc == Cleared)
  {
    InitialInv();
    RunKeepsInv(INITIAL, acts);
  }

  /** About to return -EAGAIN or -EINTR. */
  predicate Fails(q: Proc, open: bool) {
    q.pc == Interrupted || (q.pc == Entered && q.nonblock && open)
  }

  lemma FailedStep(s: State, p: nat)
    requires p in s.procs && Fails(s.procs[p], s.open)
    ensures Enabled(s, Advance(p))
    ensures var s' := Next(s, Advance(p));
            s'.open == s.open && s'.procs == s.procs[p := s.procs[p].(pc := Outside)]
  {
  }

  /** An open that returns an error leaves nothing of its own behind: its reference is given
      back, it is off the queue, and neither the flag nor any other process has changed. */
  lemma {:induction false} FailedOpenLeavesNothing(acts: seq<Action>, p: nat)
    requires CanRun(INITIAL, acts)
    requires var s := After(INITIAL, acts); p in s.procs && Fails(s.procs[p], s.open)
    ensures var s := After(INITIAL, acts);
            Enabled(s, Advance(p)) && var s' := Next(s, Advance(p));
            && s'.open == s.open && s'.procs == s.procs[p := s.procs[p].(pc := Outside)]
            && !s.procs[p].queued && s.procs[p].runnable
            && s'.refs == |set r | r in s.procs && r != p && Refers(s.procs[r])|
  {
    InitialInv();
    RunKeepsInv(INITIAL, acts);
    var s := After(INITIAL, acts);
    FailedStep(s, p);
    StepKeepsInv(s, Advance(p));
    OthersRefer(s.procs, p, s.procs[p].(pc := Outside));
    assert QueueSound(s.procs[p]);
  }

  lemma OthersRefer(procs: map<nat, Proc>, p: nat, q: Proc)
    requires !Refers(q)
    ensures Referrers(procs[p := q]) == set r | r in procs && r != p && Refers(procs[r])
  {
  }

  /** Once every process is outside again, nothing is left behind: no reference, no flag, nobody
      on the queue. */
  lemma {:induction false} NothingLeftBehind(acts: seq<Action>)
    requires CanRun(INITIAL, acts)
    requires forall p :: p in After(INITIAL, acts).procs ==> After(INITIAL, acts).procs[p].pc == Outside
    ensures var s := After(INITIAL, acts);
            s.refs == 0 && !s.open && forall p :: p in s.procs ==> !s.procs[p].queued && s.procs[p].runnable
  {
    InitialInv();
    RunKeepsInv(INITIAL, acts);
    assert Referrers(After(INITIAL, acts).procs) == {};
  }
}
