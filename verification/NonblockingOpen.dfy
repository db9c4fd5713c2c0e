/** Opening with O_NONBLOCK, and opening with a signal pending: when the calls do what their
    comments say, over every run of `BlockingOpen`. */
module NonblockingOpen {
  import opened BlockingOpen

  /** Behind the O_NONBLOCK test, still without an answer. */
  predicate Trying(q: Proc) {
    q.pc == Passed || q.pc == AtLoop || InWait(q) || q.pc == SignalTest
  }

  /** Inside `wait_event_interruptible`. */
  predicate InWait(q: Proc) {
    q.pc == WaitEntry || q.pc == Preparing || Waiting(q)
  }

  /** Step `j` is the O_NONBLOCK test of the open that process `p` is still in at `k`. */
  predicate Tested(t: seq<State>, acts: seq<Action>, p: nat, j: int, k: int) {
    && 0 <= j < k <= |acts| < |t| && acts[j] == Advance(p)
    && p in t[j].procs && t[j].procs[p].pc == Entered
    && forall i :: j < i <= k ==> p in t[i].procs && Trying(t[i].procs[p])
  }

  /** Step `k` is the test of the flag at the head of the loop, by process `p`. */
  predicate HeadOfLoop(t: seq<State>, acts: seq<Action>, p: nat, k: int) {
    0 <= k < |acts| < |t| && acts[k] == Advance(p) && p in t[k].procs && t[k].procs[p].pc == AtLoop
  }

  /** Step `m` sets the flag: its process takes the file. */
  predicate Takes(t: seq<State>, acts: seq<Action>, m: int) {
    0 <= m < |acts| < |t| && Sets(Before(t[m], acts[m].pid), acts[m])
  }

  /** Step `i` clears the flag: its process gives the file back. */
  predicate GivesBack(t: seq<State>, acts: seq<Action>, i: int) {
    0 <= i < |acts| < |t| && Clears(Before(t[i], acts[i].pid), acts[i])
  }

  /** Between steps `j` and `k` another process than `p` took the file, and since then nobody
      gave it back. */
  predicate TakenBetween(t: seq<State>, acts: seq<Action>, p: nat, j: int, k: int) {
    0 <= j < k <= |acts| < |t| &&
    exists m :: j < m < k && Takes(t, acts, m) && acts[m].pid != p && KeptBetween(t, acts, m, k)
  }

  predicate KeptBetween(t: seq<State>, acts: seq<Action>, m: int, k: int) {
    forall i :: m < i < k ==> !GivesBack(t, acts, i)
  }

  // ---------- what a step says about the state before it ----------

  lemma FlagStep(s: State, a: Action)
    requires Enabled(s, a)
    ensures Next(s, a).open == (Sets(Before(s, a.pid), a) || (s.open && !Clears(Before(s, a.pid), a)))
  {
    if a.Spawn? {
    } else {
      StepHolds(s.procs[a.pid], s.open, a);
    }
  }

  lemma StatementTries(q: Proc, open: bool)
    requires q.pc != Outside && q.pc != Holding && !Trying(q) && Trying(Statement(q, open).proc)
    ensures q.pc == Entered && (q.nonblock ==> !open)
  {
    assert q.pc == Entered || q.pc == Taking || q.pc == Interrupted
        || q.pc == Closing || q.pc == Cleared || q.pc == Awoke;
  }

  lemma StatementWaits(q: Proc, open: bool)
    requires q.pc != Outside && q.pc != Holding && InWait(Statement(q, open).proc)
    ensures InWait(q) || (q.pc == AtLoop && open)
  {
    match q.pc
    case Entered =>
    case AtLoop =>
    case SignalTest =>
    case _ =>
  }

  lemma StatementKeepsNonblock(q: Proc, open: bool)
    ensures Statement(q, open).proc.nonblock == q.nonblock
  {
  }

  lemma ActionTries(q: Proc, open: bool, a: Action)
    requires May(q, a) && Trying(EffectOf(q, open, a).proc)
    ensures EffectOf(q, open, a).proc.nonblock == q.nonblock
    ensures if Trying(q) then true else a.Advance? && q.pc == Entered && (q.nonblock ==> !open)
  {
    match a
    case Advance(_) =>
      if !Trying(q) {
        StatementTries(q, open);
      }
      StatementKeepsNonblock(q, open);
    case _ =>
  }

  lemma ActionWaits(q: Proc, open: bool, a: Action)
    requires May(q, a) && InWait(EffectOf(q, open, a).proc)
    ensures InWait(q) || (a.Advance? && q.pc == AtLoop && open)
  {
    match a
    case Advance(_) => StatementWaits(q, open);
    case _ =>
  }

  /** Whoever is trying now was trying a step ago, or has just passed the O_NONBLOCK test; and
      whoever is in the wait was in it, or has just found the flag set. */
  lemma TryingBefore(s: State, a: Action, p: nat)
    requires Enabled(s, a) && p in Next(s, a).procs && Trying(Next(s, a).procs[p])
    ensures p in s.procs && Next(s, a).procs[p].nonblock == s.procs[p].nonblock
    ensures Trying(s.procs[p]) || (a == Advance(p) && s.procs[p].pc == Entered && (s.procs[p].nonblock ==> !s.open))
    ensures InWait(Next(s, a).procs[p]) ==>
              InWait(s.procs[p]) || (a == Advance(p) && s.procs[p].pc == AtLoop && s.open)
  {
    var q := Before(s, a.pid);
    if a.pid == p {
      assert Next(s, a).procs[p] == EffectOf(q, s.open, a).proc;
      ActionTries(q, s.open, a);
      if InWait(EffectOf(q, s.open, a).proc) {
        ActionWaits(q, s.open, a);
      }
    } else {
      OthersAfter(s, a.pid, EffectOf(q, s.open, a), p);
    }
  }

  // ---------- what a run says ----------

  lemma {:induction false} FindTest(t: seq<State>, acts: seq<Action>, p: nat, k: nat) returns (j: nat)
    requires Follows(t, acts) && t[0] == INITIAL && k <= |acts| && p in t[k].procs && Trying(t[k].procs[p])
    ensures Tested(t, acts, p, j, k) && t[j].procs[p].nonblock == t[k].procs[p].nonblock
    ensures t[j].procs[p].nonblock ==> !t[j].open
  {
    TryingBefore(t[k - 1], acts[k - 1], p);
    if Trying(t[k - 1].procs[p]) {
      j := FindTest(t, acts, p, k - 1);
    } else {
      j := k - 1;
    }
  }

  lemma OneTest(t: seq<State>, acts: seq<Action>, p: nat, i: nat, j: nat, k: nat)
    requires Tested(t, acts, p, i, k) && Tested(t, acts, p, j, k)
    ensures i == j
  {
    assert !Trying(t[i].procs[p]) && !Trying(t[j].procs[p]);
  }

  lemma {:induction false} FindHead(t: seq<State>, acts: seq<Action>, p: nat, k: nat) returns (h: nat)
    requires Follows(t, acts) && t[0] == INITIAL && k <= |acts| && p in t[k].procs && InWait(t[k].procs[p])
    ensures h < k && HeadOfLoop(t, acts, p, h) && t[h].open && t[h].procs[p].nonblock == t[k].procs[p].nonblock
    ensures forall i :: h < i <= k ==> p in t[i].procs && InWait(t[i].procs[p])
  {
    TryingBefore(t[k - 1], acts[k - 1], p);
    if InWait(t[k - 1].procs[p]) {
      h := FindHead(t, acts, p, k - 1);
    } else {
      h := k - 1;
    }
  }

  lemma {:induction false} FlagWasSet(t: seq<State>, acts: seq<Action>, j: nat, k: nat) returns (m: nat)
    requires Follows(t, acts) && j < k <= |acts| && !t[j].open && t[k].open
    ensures j <= m < k && Takes(t, acts, m) && KeptBetween(t, acts, m, k)
  {
    FlagStep(t[k - 1], acts[k - 1]);
    if t[k - 1].open {
      m := FlagWasSet(t, acts, j, k - 1);
    } else {
      m := k - 1;
    }
  }

  lemma {:induction false} FlagStaysSet(t: seq<State>, acts: seq<Action>, m: nat, k: nat)
    requires Follows(t, acts) && m < k <= |acts| && Takes(t, acts, m) && KeptBetween(t, acts, m, k)
    ensures t[k].open
  {
    FlagStep(t[k - 1], acts[k - 1]);
    if m < k - 1 {
      assert !GivesBack(t, acts, k - 1);
      FlagStaysSet(t, acts, m, k - 1);
    }
  }

  /** Behind a test that found the flag clear, the flag is set exactly when another process has
      taken the file since and nobody has given it back. */
  lemma SetExactlyWhenTaken(t: seq<State>, acts: seq<Action>, p: nat, j: nat, k: nat)
    requires Follows(t, acts) && Tested(t, acts, p, j, k) && !t[j].open
    ensures t[k].open <==> TakenBetween(t, acts, p, j, k)
  {
    if t[k].open {
      var m := FlagWasSet(t, acts, j, k);
      if m > j {
        assert Trying(t[m].procs[p]);
      }
      assert acts[m].pid != p;
    }
    if TakenBetween(t, acts, p, j, k) {
      var m :| j < m < k && Takes(t, acts, m) && acts[m].pid != p && KeptBetween(t, acts, m, k);
      FlagStaysSet(t, acts, m, k);
    }
  }

  // ---------- O_NONBLOCK ----------

  /** Opening with O_NONBLOCK is meant never to wait. Over every run: at the head of its loop
      such an open enters the wait if and only if another process took the file after the
      open's own O_NONBLOCK test and nobody has given it back; otherwise it leaves the loop. */
  lemma {:induction false} NonblockingWaitsExactly(acts: seq<Action>, p: nat, k: nat)
    requires CanRun(INITIAL, acts) && HeadOfLoop(Trail(INITIAL, acts), acts, p, k)
    requires Trail(INITIAL, acts)[k].procs[p].nonblock
    ensures var t := Trail(INITIAL, acts);
            && (exists j :: Tested(t, acts, p, j, k))
            && p in t[k + 1].procs
            && forall j :: Tested(t, acts, p, j, k) ==>
                 !t[j].open && t[k + 1].procs[p].pc == if TakenBetween(t, acts, p, j, k) then WaitEntry else Taking
  {
    var t := Trail(INITIAL, acts);
    TrailFollows(INITIAL, acts);
    var i := FindTest(t, acts, p, k);
    SetExactlyWhenTaken(t, acts, p, i, k);
    assert t[k + 1] == Next(t[k], acts[k]);
    forall j | Tested(t, acts, p, j, k)
      ensures j == i
    {
      OneTest(t, acts, p, i, j, k);
    }
  }

  /** Process `p` tested the flag at `j`, found it clear, found it set at the loop head `k` and
      has been in the wait since; in between another process took the file and kept it. */
  predicate LostTheFile(t: seq<State>, acts: seq<Action>, p: nat, j: int, k: int) {
    && Tested(t, acts, p, j, k) && !t[j].open
    && HeadOfLoop(t, acts, p, k) && t[k].open
    && TakenBetween(t, acts, p, j, k)
    && forall i :: k < i <= |acts| ==> p in t[i].procs && InWait(t[i].procs[p])
  }

  lemma WaitMeansLost(t: seq<State>, acts: seq<Action>, p: nat) returns (j: nat, k: nat)
    requires Follows(t, acts) && t[0] == INITIAL && p in t[|acts|].procs
    requires t[|acts|].procs[p].nonblock && InWait(t[|acts|].procs[p])
    ensures LostTheFile(t, acts, p, j, k)
  {
    k := FindHead(t, acts, p, |acts|);
    j := FindTest(t, acts, p, k);
    SetExactlyWhenTaken(t, acts, p, j, k);
  }

  /** Wherever in the wait an open with O_NONBLOCK is found, asleep or not: it got there because
      another process took the file between its test and its loop head, and kept it. */
  lemma {:induction false} NonblockingWaitMeansTaken(acts: seq<Action>, p: nat)
    requires CanRun(INITIAL, acts) && p in After(INITIAL, acts).procs
    requires After(INITIAL, acts).procs[p].nonblock && InWait(After(INITIAL, acts).procs[p])
    ensures exists j, k :: LostTheFile(Trail(INITIAL, acts), acts, p, j, k)
  {
    TrailFollows(INITIAL, acts);
    var j, k := WaitMeansLost(Trail(INITIAL, acts), acts, p);
  }

  // ---------- two runs ----------

  lemma {:induction false} RunJoins(s: State, xs: seq<Action>, ys: seq<Action>)
    requires CanRun(s, xs) && CanRun(After(s, xs), ys)
    ensures CanRun(s, xs + ys) && After(s, xs + ys) == After(After(s, xs), ys)
    decreases |xs|
  {
    if xs == [] {
      assert xs + ys == ys;
    } else {
      assert (xs + ys)[1..] == xs[1..] + ys;
      RunJoins(Next(s, xs[0]), xs[1..], ys);
    }
  }

  lemma OneMore(s: State, acts: seq<Action>, a: Action)
    requires CanRun(s, acts) && Enabled(After(s, acts), a)
    ensures CanRun(s, acts + [a]) && After(s, acts + [a]) == Next(After(s, acts), a)
  {
    var t, last := After(s, acts), [a];
    assert last[0] == a && last[1..] == [];
    assert After(Next(t, a), last[1..]) == Next(t, a);
    RunJoins(s, acts, last);
  }

  /** `acts` leads from the initial state to `s`. */
  predicate Leads(acts: seq<Action>, s: State) {
    CanRun(INITIAL, acts) && After(INITIAL, acts) == s
  }

  /** Processes 0 and 1 have the records given, and nobody else is there. */
  function Two(open: bool, refs: int, p: Proc, q: Proc): State {
    State(open, refs, map[0 := p, 1 := q])
  }

  lemma FirstSteps(acts: seq<Action>, open: bool, refs: int, p: Proc, q: Proc, a: Action, f: Effect)
    returns (longer: seq<Action>)
    requires Leads(acts, Two(open, refs, p, q)) && a.pid == 0 && !a.Spawn? && May(p, a)
    requires f == EffectOf(p, open, a) && !f.wakes
    ensures Leads(longer, Two(f.open, refs + f.delta, f.proc, q))
  {
    OneMore(INITIAL, acts, a);
    longer := acts + [a];
    assert map[0 := p, 1 := q][0 := f.proc] == map[0 := f.proc, 1 := q];
  }

  lemma SecondSteps(acts: seq<Action>, open: bool, refs: int, p: Proc, q: Proc, a: Action, f: Effect)
    returns (longer: seq<Action>)
    requires Leads(acts, Two(open, refs, p, q)) && a.pid == 1 && !a.Spawn? && May(q, a)
    requires f == EffectOf(q, open, a) && !f.wakes
    ensures Leads(longer, Two(f.open, refs + f.delta, p, f.proc))
  {
    OneMore(INITIAL, acts, a);
    longer := acts + [a];
    assert map[0 := p, 1 := q][1 := f.proc] == map[0 := p, 1 := f.proc];
  }

  lemma Spawns(acts: seq<Action>, s: State, pid: nat, s': State) returns (longer: seq<Action>)
    requires Leads(acts, s) && pid !in s.procs && s' == s.(procs := s.procs[pid := IDLE])
    ensures Leads(longer, s')
  {
    OneMore(INITIAL, acts, Spawn(pid));
    longer := acts + [Spawn(pid)];
  }

  lemma TwoProcesses() returns (acts: seq<Action>)
    ensures Leads(acts, Two(false, 0, IDLE, IDLE))
  {
    acts := [];
    assert Leads(acts, INITIAL);
    acts := Spawns(acts, INITIAL, 0, State(false, 0, map[0 := IDLE]));
    acts := Spawns(acts, State(false, 0, map[0 := IDLE]), 1, Two(false, 0, IDLE, IDLE));
  }

  /** A process that is not in the wait and has no signal. */
  function Plain(pc: Pc, nonblock: bool): Proc {
    Proc(pc, nonblock, false, true, false, false)
  }

  lemma FirstReachesLoop(acts: seq<Action>, q: Proc) returns (longer: seq<Action>)
    requires Leads(acts, Two(false, 0, IDLE, q))
    ensures Leads(longer, Two(false, 1, Plain(AtLoop, false), q))
  {
    var open, p := false, Plain(Entered, false);
    longer := FirstSteps(acts, open, 0, IDLE, q, Open(0, false), Effect(p, open, 0, false));
    longer := FirstSteps(longer, open, 0, p, q, Advance(0), Effect(Plain(Passed, false), open, 0, false));
    longer := FirstSteps(longer, open, 0, Plain(Passed, false), q, Advance(0),
                         Effect(Plain(AtLoop, false), open, 1, false));
  }

  lemma FirstTakes(acts: seq<Action>, q: Proc) returns (longer: seq<Action>)
    requires Leads(acts, Two(false, 1, Plain(AtLoop, false), q))
    ensures Leads(longer, Two(true, 1, Plain(Holding, false), q))
  {
    var p, taking := Plain(AtLoop, false), Plain(Taking, false);
    longer := FirstSteps(acts, false, 1, p, q, Advance(0), Effect(taking, false, 0, false));
    longer := FirstSteps(longer, false, 1, taking, q, Advance(0), Effect(Plain(Holding, false), true, 0, false));
  }

  /** Process 1 opens and finds the flag clear. */
  lemma SecondPasses(acts: seq<Action>, nonblock: bool) returns (longer: seq<Action>)
    requires Leads(acts, Two(false, 0, IDLE, IDLE))
    ensures Leads(longer, Two(false, 0, IDLE, Plain(Passed, nonblock)))
  {
    var open, q := false, Plain(Entered, nonblock);
    longer := SecondSteps(acts, open, 0, IDLE, IDLE, Open(1, nonblock), Effect(q, open, 0, false));
    longer := SecondSteps(longer, open, 0, IDLE, q, Advance(1), Effect(Plain(Passed, nonblock), open, 0, false));
  }

  /** Process 1, past its test, comes to the loop when the file is taken, ... */
  lemma SecondWaits(acts: seq<Action>, p: Proc, nonblock: bool) returns (longer: seq<Action>)
    requires Leads(acts, Two(true, 1, p, Plain(Passed, nonblock)))
    ensures Leads(longer, Two(true, 2, p, Plain(Preparing, nonblock)))
  {
    var open := true;
    longer := SecondSteps(acts, open, 1, p, Plain(Passed, nonblock), Advance(1),
                          Effect(Plain(AtLoop, nonblock), open, 1, false));
    longer := SecondSteps(longer, open, 2, p, Plain(AtLoop, nonblock), Advance(1),
                          Effect(Plain(WaitEntry, nonblock), open, 0, false));
    longer := SecondSteps(longer, open, 2, p, Plain(WaitEntry, nonblock), Advance(1),
                          Effect(Plain(Preparing, nonblock), open, 0, false));
  }

  /** ... and falls asleep. */
  lemma SecondSleeps(acts: seq<Action>, p: Proc, nonblock: bool) returns (longer: seq<Action>)
    requires Leads(acts, Two(true, 2, p, Plain(Preparing, nonblock)))
    ensures Leads(longer, Two(true, 2, p, Proc(Scheduled, nonblock, true, false, false, false)))
  {
    var open, q := true, Proc(Checking, nonblock, true, false, false, false);
    longer := SecondSteps(acts, open, 2, p, Plain(Preparing, nonblock), Advance(1), Effect(q, open, 0, false));
    longer := SecondSteps(longer, open, 2, p, q, Advance(1), Effect(q.(pc := CheckingSignal), open, 0, false));
    longer := SecondSteps(longer, open, 2, p, q.(pc := CheckingSignal), Advance(1),
                          Effect(q.(pc := Scheduled), open, 0, false));
  }

  /** Opening with O_NONBLOCK can sleep: the flag is tested once, before the loop, and another
      process may take the file in between. */
  lemma NonblockingOpenCanSleep() returns (acts: seq<Action>)
    ensures CanRun(INITIAL, acts)
    ensures var s := After(INITIAL, acts);
            1 in s.procs && s.procs[1].nonblock && Asleep(s.procs[1])
  {
    acts := TwoProcesses();
    acts := SecondPasses(acts, true);
    acts := FirstReachesLoop(acts, Plain(Passed, true));
    acts := FirstTakes(acts, Plain(Passed, true));
    acts := SecondWaits(acts, Plain(Holding, false), true);
    acts := SecondSleeps(acts, Plain(Holding, false), true);
  }

  /** One process may overtake another, and then both hold the file. */
  lemma TwoCanHold() returns (acts: seq<Action>)
    ensures CanRun(INITIAL, acts)
    ensures var s := After(INITIAL, acts);
            0 in s.procs && 1 in s.procs && s.procs[0].pc == Holding && s.procs[1].pc == Holding
  {
    var p, q := Plain(AtLoop, false), Plain(AtLoop, false);
    acts := TwoProcesses();
    acts := SecondPasses(acts, false);
    acts := FirstReachesLoop(acts, Plain(Passed, false));
    acts := SecondSteps(acts, false, 1, p, Plain(Passed, false), Advance(1), Effect(q, false, 1, false));
    acts := SecondSteps(acts, false, 2, p, q, Advance(1), Effect(Plain(Taking, false), false, 0, false));
    var s := Two(false, 2, p, Plain(Taking, false));
    OvertakenBothHold(s, 0, 1);
    RunJoins(INITIAL, acts, [Advance(0), Advance(0), Advance(1)]);
    acts := acts + [Advance(0), Advance(0), Advance(1)];
  }

  // ---------- signals ----------

  /** Before step `k` process `p` got a signal that its own signal words show, and has not
      handled its signals since. */
  predicate Signalled(acts: seq<Action>, p: nat, k: int) {
    exists m :: 0 <= m < k <= |acts| && acts[m] == Signal(p, true) && Unhandled(acts, p, m, k)
  }

  predicate Unhandled(acts: seq<Action>, p: nat, m: int, k: int) {
    forall i {:trigger acts[i]} :: 0 <= m < i < k <= |acts| ==> acts[i] != HandleSignals(p)
  }

  predicate ShowsSignal(s: State, p: nat) {
    p in s.procs && s.procs[p].visible
  }

  lemma StatementKeepsVisible(q: Proc, open: bool)
    ensures Statement(q, open).proc.visible == q.visible
  {
  }

  lemma ShowsStep(s: State, a: Action, p: nat)
    requires Enabled(s, a)
    ensures ShowsSignal(Next(s, a), p) <==> a == Signal(p, true) || (ShowsSignal(s, p) && a != HandleSignals(p))
  {
    var q := Before(s, a.pid);
    if a.pid == p {
      assert Next(s, a).procs[p] == EffectOf(q, s.open, a).proc;
      if a.Advance? {
        StatementKeepsVisible(q, s.open);
      }
    } else if p in s.procs {
      OthersAfter(s, a.pid, EffectOf(q, s.open, a), p);
    }
  }

  lemma SignalledStep(acts: seq<Action>, p: nat, k: nat)
    requires k < |acts|
    ensures Signalled(acts, p, k + 1)
            <==> acts[k] == Signal(p, true) || (Signalled(acts, p, k) && acts[k] != HandleSignals(p))
  {
    if Signalled(acts, p, k + 1) {
      var m :| 0 <= m < k + 1 && acts[m] == Signal(p, true) && Unhandled(acts, p, m, k + 1);
      if m < k {
        assert acts[k] != HandleSignals(p) && Unhandled(acts, p, m, k);
      }
    }
    if acts[k] == Signal(p, true) {
      assert Unhandled(acts, p, k, k + 1);
    } else if Signalled(acts, p, k) && acts[k] != HandleSignals(p) {
      var m :| 0 <= m < k && acts[m] == Signal(p, true) && Unhandled(acts, p, m, k);
      assert Unhandled(acts, p, m, k + 1);
    }
  }

  lemma {:induction false} ShowsExactly(t: seq<State>, acts: seq<Action>, p: nat, k: nat)
    requires Follows(t, acts) && t[0] == INITIAL && k <= |acts|
    ensures ShowsSignal(t[k], p) <==> Signalled(acts, p, k)
  {
    if k > 0 {
      ShowsExactly(t, acts, p, k - 1);
      ShowsStep(t[k - 1], acts[k - 1], p);
      SignalledStep(acts, p, k - 1);
    }
  }

  /** A wait that is over, for whatever reason, ends in -EINTR exactly when the process got a
      signal that its own signal words show and has not handled it; otherwise the loop goes on. */
  lemma {:induction false} ReturnsEintrExactly(acts: seq<Action>, p: nat, k: nat)
    requires CanRun(INITIAL, acts) && k < |acts| && acts[k] == Advance(p)
    requires var s := Trail(INITIAL, acts)[k]; p in s.procs && s.procs[p].pc == SignalTest
    ensures var s' := Trail(INITIAL, acts)[k + 1];
            p in s'.procs && s'.procs[p].pc == if Signalled(acts, p, k) then Interrupted else AtLoop
  {
    var t := Trail(INITIAL, acts);
    TrailFollows(INITIAL, acts);
    ShowsExactly(t, acts, p, k);
    assert t[k + 1] == Next(t[k], acts[k]);
  }

  /** `n` statements of process `p`. */
  function Steps(p: nat, n: nat): seq<Action> {
    if n == 0 then [] else [Advance(p)] + Steps(p, n - 1)
  }

  lemma OneStep(s: State, p: nat, n: nat, t: State)
    requires Enabled(s, Advance(p)) && t == Next(s, Advance(p)) && CanRun(t, Steps(p, n))
    ensures CanRun(s, Steps(p, n + 1)) && After(s, Steps(p, n + 1)) == After(t, Steps(p, n))
  {
    assert Steps(p, n + 1)[1..] == Steps(p, n);
  }

  /** Process `p` has record `q`; nothing else differs from `s`. */
  function With(s: State, p: nat, q: Proc): State {
    s.(procs := s.procs[p := q])
  }

  /** A statement of `p` that only moves `p` on. */
  lemma MovesOn(s: State, p: nat, q: Proc, q': Proc, n: nat)
    requires q.pc != Outside && q.pc != Holding && !Asleep(q) && Statement(q, s.open) == Effect(q', s.open, 0, false)
    requires CanRun(With(s, p, q'), Steps(p, n))
    ensures CanRun(With(s, p, q), Steps(p, n + 1))
    ensures After(With(s, p, q), Steps(p, n + 1)) == After(With(s, p, q'), Steps(p, n))
  {
    assert With(s, p, q).procs[p := q'] == With(s, p, q').procs;
    OneStep(With(s, p, q), p, n, With(s, p, q'));
  }

  /** Into the wait and onto the queue, with the flag set and nobody else taking a step. */
  lemma EntersWait(s: State, p: nat, q: Proc, q': Proc, n: nat)
    requires q.pc == AtLoop && q' == q.(pc := Preparing) && s.open
    requires CanRun(With(s, p, q'), Steps(p, n))
    ensures CanRun(With(s, p, q), Steps(p, n + 2))
    ensures After(With(s, p, q), Steps(p, n + 2)) == After(With(s, p, q'), Steps(p, n))
  {
    MovesOn(s, p, q.(pc := WaitEntry), q', n);
    MovesOn(s, p, q, q.(pc := WaitEntry), n + 1);
  }

  lemma JoinsQueue(s: State, p: nat, q: Proc, q': Proc, n: nat)
    requires q.pc == Preparing && q' == q.(pc := CheckingSignal, queued := true, runnable := false) && s.open
    requires CanRun(With(s, p, q'), Steps(p, n))
    ensures CanRun(With(s, p, q), Steps(p, n + 2))
    ensures After(With(s, p, q), Steps(p, n + 2)) == After(With(s, p, q'), Steps(p, n))
  {
    MovesOn(s, p, q'.(pc := Checking), q', n);
    MovesOn(s, p, q, q'.(pc := Checking), n + 1);
  }

  lemma GoesToWait(s: State, p: nat, q: Proc, q': Proc, n: nat)
    requires q.pc == AtLoop && q' == q.(pc := CheckingSignal, queued := true, runnable := false) && s.open
    requires CanRun(With(s, p, q'), Steps(p, n))
    ensures CanRun(With(s, p, q), Steps(p, n + 4))
    ensures After(With(s, p, q), Steps(p, n + 4)) == After(With(s, p, q'), Steps(p, n))
  {
    var q1 := q.(pc := Preparing);
    JoinsQueue(s, p, q1, q', n);
    EntersWait(s, p, q, q1, n + 2);
  }

  /** The wait leaves a process with a pending signal to the loop over the signal words. */
  lemma LeavesWait(s: State, p: nat, q: Proc, q': Proc, n: nat)
    requires q.pc == CheckingSignal && q.pending && q' == q.(pc := SignalTest, queued := false, runnable := true)
    requires CanRun(With(s, p, q'), Steps(p, n))
    ensures CanRun(With(s, p, q), Steps(p, n + 1))
    ensures After(With(s, p, q), Steps(p, n + 1)) == After(With(s, p, q'), Steps(p, n))
  {
    MovesOn(s, p, q, q', n);
  }

  /** Once round the loop, or to where -EINTR is returned. */
  lemma GoesRound(s: State, p: nat, q: Proc, q': Proc, n: nat)
    requires q.pc == AtLoop && !q.queued && q.runnable && s.open && q.pending
    requires q' == q.(pc := if q.visible then Interrupted else AtLoop)
    requires CanRun(With(s, p, q'), Steps(p, n))
    ensures CanRun(With(s, p, q), Steps(p, n + 6))
    ensures After(With(s, p, q), Steps(p, n + 6)) == After(With(s, p, q'), Steps(p, n))
  {
    var last := q.(pc := CheckingSignal, queued := true, runnable := false);
    var test := q.(pc := SignalTest);
    MovesOn(s, p, test, q', n);
    LeavesWait(s, p, last, test, n + 1);
    GoesToWait(s, p, q, last, n + 2);
  }

  /** A pending signal is meant to make a waiting open return -EINTR. With the flag set and a
      signal pending, an open left to itself does so exactly when the loop over the signal words
      finds the signal; otherwise it is back at the head of its loop and nothing has changed. */
  lemma InterruptedExactly(s: State, p: nat)
    requires p in s.procs && QueueSound(s.procs[p]) && s.procs[p].pc == AtLoop && s.open && s.procs[p].pending
    ensures CanRun(s, Steps(p, 6))
    ensures After(s, Steps(p, 6)) == if s.procs[p].visible then With(s, p, s.procs[p].(pc := Interrupted)) else s
  {
    var q := s.procs[p];
    assert With(s, p, q) == s;
    GoesRound(s, p, q, q.(pc := if q.visible then Interrupted else AtLoop), 0);
  }

  /** So an open whose signal is not found neither sleeps nor returns, however long it runs. */
  lemma {:induction false} GoesRoundForever(s: State, p: nat, n: nat)
    requires p in s.procs && QueueSound(s.procs[p]) && s.procs[p].pc == AtLoop && s.open
    requires s.procs[p].pending && !s.procs[p].visible
    ensures CanRun(s, Steps(p, 6 * n)) && After(s, Steps(p, 6 * n)) == s
  {
    if n > 0 {
      GoesRoundForever(s, p, n - 1);
      var q := s.procs[p];
      assert With(s, p, q) == s;
      GoesRound(s, p, q, q, 6 * (n - 1));
    }
  }

  lemma HoldersTakeNoStep(s: State, p: nat, n: nat)
    requires p in s.procs && s.procs[p].pc == Holding
    ensures !CanRun(s, Steps(p, n + 1))
  {
  }

  lemma TwoAndNoMore(s: State, p: nat, n: nat)
    requires p in s.procs && s.procs[p].pc == AtLoop && !s.open
    ensures !CanRun(s, Steps(p, n + 3))
  {
    var s1 := Next(s, Advance(p));
    var s2 := Next(s1, Advance(p));
    HoldersTakeNoStep(s2, p, n);
    assert Steps(p, n + 3)[1..] == Steps(p, n + 2) && Steps(p, n + 2)[1..] == Steps(p, n + 1);
  }

  /** An open left to itself at the head of its loop falls asleep exactly when the flag is set
      and no signal is pending. */
  lemma SleepsExactly(s: State, p: nat)
    requires p in s.procs && QueueSound(s.procs[p]) && s.procs[p].pc == AtLoop
    ensures s.open && !s.procs[p].pending
            <==> CanRun(s, Steps(p, 5)) && p in After(s, Steps(p, 5)).procs && Asleep(After(s, Steps(p, 5)).procs[p])
  {
    var q := s.procs[p];
    assert With(s, p, q) == s;
    var last := q.(pc := CheckingSignal, queued := true, runnable := false);
    if !s.open {
      TwoAndNoMore(s, p, 2);
    } else if q.pending {
      LeavesWait(s, p, last, q.(pc := SignalTest), 0);
      GoesToWait(s, p, q, last, 1);
    } else {
      MovesOn(s, p, last, last.(pc := Scheduled), 0);
      GoesToWait(s, p, q, last, 1);
    }
  }

  /** Such a state is reached when a signal that the loop does not find comes to a waiting open. */
  lemma HiddenSignalIsReachable() returns (acts: seq<Action>)
    ensures CanRun(INITIAL, acts)
    ensures var s := After(INITIAL, acts);
            && s.open && 1 in s.procs && s.procs[1].pc == AtLoop && QueueSound(s.procs[1])
            && s.procs[1].pending && !s.procs[1].visible
  {
    var p, q := Plain(Holding, false), Plain(AtLoop, false);
    acts := TwoProcesses();
    acts := SecondPasses(acts, false);
    acts := FirstReachesLoop(acts, Plain(Passed, false));
    acts := FirstTakes(acts, Plain(Passed, false));
    acts := SecondSteps(acts, true, 1, p, Plain(Passed, false), Advance(1), Effect(q, true, 1, false));
    acts := SecondSteps(acts, true, 2, p, q, Signal(1, false), Effect(q.(pending := true), true, 0, false));
  }
}
