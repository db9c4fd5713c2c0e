/** What one call of `module_open` or `module_close` comes to: when an open may fail, and what an
    open, a close and a woken sleeper do when nobody else takes a step. */
module OpenOutcomes {
  import opened BlockingOpen
  import opened NonblockingOpen

  // ---------- failing, over every run ----------

  lemma LeavesFrom(q: Proc, open: bool)
    requires q.pc != Outside && Statement(q, open).proc.pc == Outside
    ensures (q.pc == Entered && q.nonblock && open) || q.pc == Interrupted || q.pc == Awoke
  {
  }

  lemma {:induction false} InvAlong(s: State, acts: seq<Action>, k: nat)
    requires Inv(s) && CanRun(s, acts) && k <= |acts|
    ensures Inv(Trail(s, acts)[k])
    decreases k
  {
    if k > 0 {
      StepKeepsInv(s, acts[0]);
      InvAlong(Next(s, acts[0]), acts[1..], k - 1);
    }
  }

  /** Over every run: a step that ends a call without it being a close returns an error, and it
      does so only with O_NONBLOCK while the flag is set, or after a signal that the signal words
      show and that was not handled. An open without O_NONBLOCK and without a signal never fails. */
  lemma {:induction false} FailsOnlyWithReason(acts: seq<Action>, p: nat, k: nat)
    requires CanRun(INITIAL, acts) && k < |acts| && acts[k] == Advance(p)
    requires var t := Trail(INITIAL, acts);
             && p in t[k].procs && t[k].procs[p].pc != Awoke
             && p in t[k + 1].procs && t[k + 1].procs[p].pc == Outside
    ensures var t := Trail(INITIAL, acts);
            (t[k].procs[p].nonblock && t[k].open) || Signalled(acts, p, k)
  {
    var t := Trail(INITIAL, acts);
    TrailFollows(INITIAL, acts);
    assert Enabled(t[k], acts[k]) && t[k + 1] == Next(t[k], acts[k]);
    LeavesFrom(t[k].procs[p], t[k].open);
    InitialInv();
    InvAlong(INITIAL, acts, k);
    assert QueueSound(t[k].procs[p]);
    ShowsExactly(t, acts, p, k);
  }

  /** At its test, an open returns -EAGAIN exactly with O_NONBLOCK and the flag set. */
  lemma EagainExactly(s: State, p: nat)
    requires p in s.procs && s.procs[p].pc == Entered
    ensures Enabled(s, Advance(p))
    ensures Next(s, Advance(p)).procs[p].pc == (if s.procs[p].nonblock && s.open then Outside else Passed)
  {
  }

  // ---------- pending signals ----------

  lemma StatementKeepsPending(q: Proc, open: bool)
    ensures Statement(q, open).proc.pending == q.pending
  {
  }

  predicate HasPending(s: State, p: nat) {
    p in s.procs && s.procs[p].pending
  }

  lemma PendingStep(s: State, a: Action, p: nat)
    requires Enabled(s, a)
    ensures HasPending(Next(s, a), p)
            <==> (a.Signal? && a.pid == p) || (HasPending(s, p) && a != HandleSignals(p))
  {
    var q := Before(s, a.pid);
    if a.pid == p {
      assert Next(s, a).procs[p] == EffectOf(q, s.open, a).proc;
      if a.Advance? {
        StatementKeepsPending(q, s.open);
      }
    } else if p in s.procs {
      OthersAfter(s, a.pid, EffectOf(q, s.open, a), p);
    }
  }

  // ---------- one call left to itself ----------

  /** A step of `p` that wakes nobody, from and to states given as values. */
  lemma Steps1(s: State, p: nat, q: Proc, f: Effect, n: nat, t: State)
    requires q.pc != Outside && q.pc != Holding && !Asleep(q) && Statement(q, s.open) == f && !f.wakes
    requires t == State(f.open, s.refs + f.delta, s.procs[p := f.proc])
    requires CanRun(t, Steps(p, n))
    ensures CanRun(With(s, p, q), Steps(p, n + 1)) && After(With(s, p, q), Steps(p, n + 1)) == After(t, Steps(p, n))
  {
    assert With(s, p, q).procs[p := f.proc] == s.procs[p := f.proc];
    OneStep(With(s, p, q), p, n, t);
  }

  /** From the head of the loop with the flag clear, two statements take the file. */
  lemma Takes2(s: State, p: nat, q: Proc)
    requires q.pc == AtLoop && !s.open
    ensures CanRun(With(s, p, q), Steps(p, 2))
    ensures After(With(s, p, q), Steps(p, 2)) == State(true, s.refs, s.procs[p := q.(pc := Holding)])
  {
    Steps1(s, p, q.(pc := Taking), Effect(q.(pc := Holding), true, 0, false), 0,
           State(true, s.refs, s.procs[p := q.(pc := Holding)]));
    MovesOn(s, p, q, q.(pc := Taking), 1);
  }

  /** Opening a free file succeeds in four statements, with or without O_NONBLOCK. */
  lemma FreeFileOpens(s: State, p: nat, nonblock: bool)
    requires p in s.procs && s.procs[p].pc == Outside && !s.open
    ensures var acts := [Open(p, nonblock)] + Steps(p, 4);
            CanRun(s, acts) &&
            After(s, acts) == State(true, s.refs + 1, s.procs[p := s.procs[p].(pc := Holding, nonblock := nonblock)])
  {
    var q := s.procs[p].(pc := Entered, nonblock := nonblock);
    Passes4(s, p, q);
    assert Next(s, Open(p, nonblock)) == With(s, p, q);
    First(s, Open(p, nonblock), Steps(p, 4));
  }

  lemma Passes4(s: State, p: nat, q: Proc)
    requires q.pc == Entered && !s.open
    ensures CanRun(With(s, p, q), Steps(p, 4))
    ensures After(With(s, p, q), Steps(p, 4)) == State(true, s.refs + 1, s.procs[p := q.(pc := Holding)])
  {
    var got := State(false, s.refs + 1, s.procs);
    Takes2(got, p, q.(pc := AtLoop));
    Steps1(s, p, q.(pc := Passed), Effect(q.(pc := AtLoop), false, 1, false), 2, With(got, p, q.(pc := AtLoop)));
    MovesOn(s, p, q, q.(pc := Passed), 3);
  }

  lemma First(s: State, a: Action, acts: seq<Action>)
    requires Enabled(s, a) && CanRun(Next(s, a), acts)
    ensures CanRun(s, [a] + acts) && After(s, [a] + acts) == After(Next(s, a), acts)
  {
    assert ([a] + acts)[1..] == acts;
  }

  /** Out of the loop over the signal words and on to the file, when both are clear. */
  lemma Takes3(s: State, p: nat, q: Proc)
    requires q.pc == SignalTest && !q.visible && !s.open
    ensures CanRun(With(s, p, q), Steps(p, 3))
    ensures After(With(s, p, q), Steps(p, 3)) == State(true, s.refs, s.procs[p := q.(pc := Holding)])
  {
    Takes2(s, p, q.(pc := AtLoop));
    MovesOn(s, p, q, q.(pc := AtLoop), 2);
  }

  /** An open that finds the flag clear as soon as it enters the wait never goes on the queue. */
  lemma ComesStraightBack(s: State, p: nat)
    requires p in s.procs && QueueSound(s.procs[p]) && s.procs[p].pc == WaitEntry && !s.procs[p].visible && !s.open
    ensures CanRun(s, Steps(p, 4))
    ensures After(s, Steps(p, 4)) == State(true, s.refs, s.procs[p := s.procs[p].(pc := Holding)])
  {
    var q := s.procs[p];
    assert With(s, p, q) == s;
    Takes3(s, p, q.(pc := SignalTest));
    MovesOn(s, p, q, q.(pc := SignalTest), 3);
  }

  /** A sleeper that was woken looks again: when the file is free it gets it, in six statements. */
  lemma WokenTakesFile(s: State, p: nat)
    requires p in s.procs && s.procs[p].pc == Scheduled && s.procs[p].runnable && !s.procs[p].visible && !s.open
    ensures CanRun(s, Steps(p, 6))
    ensures After(s, Steps(p, 6))
         == State(true, s.refs, s.procs[p := s.procs[p].(pc := Holding, queued := false, runnable := true)])
  {
    var q := s.procs[p];
    var q1 := q.(pc := Preparing);
    var q2 := q.(pc := Checking, queued := true, runnable := false);
    var q3 := q.(pc := SignalTest, queued := false, runnable := true);
    assert With(s, p, q) == s;
    Takes3(s, p, q3);
    MovesOn(s, p, q2, q3, 3);
    MovesOn(s, p, q1, q2, 4);
    MovesOn(s, p, q, q1, 5);
  }

  /** When another was faster it goes back to sleep, in four statements. */
  lemma WokenTooLateSleepsAgain(s: State, p: nat)
    requires p in s.procs && s.procs[p].pc == Scheduled && s.procs[p].runnable && !s.procs[p].pending && s.open
    ensures CanRun(s, Steps(p, 4))
    ensures After(s, Steps(p, 4)) == With(s, p, s.procs[p].(queued := true, runnable := false))
    ensures Asleep(After(s, Steps(p, 4)).procs[p])
  {
    var q := s.procs[p];
    assert With(s, p, q) == s;
    SleepsAgain(s, p, q, q.(queued := true, runnable := false));
  }

  lemma SleepsAgain(s: State, p: nat, q: Proc, q': Proc)
    requires q.pc == Scheduled && q.runnable && !q.pending && s.open && q' == q.(queued := true, runnable := false)
    ensures CanRun(With(s, p, q), Steps(p, 4)) && After(With(s, p, q), Steps(p, 4)) == With(s, p, q')
  {
    var last := q'.(pc := CheckingSignal);
    MovesOn(s, p, last, q', 0);
    JoinsQueue(s, p, q.(pc := Preparing), last, 1);
    MovesOn(s, p, q, q.(pc := Preparing), 3);
  }

  // ---------- closing ----------

  /** The other processes after a `wake_up`: the sleepers are runnable and off the queue, everybody
      else is as before. */
  predicate OthersWoken(procs: map<nat, Proc>, procs': map<nat, Proc>, p: nat) {
    && procs'.Keys == procs.Keys
    && forall r :: r in procs && r != p ==>
         procs'[r] == if procs[r].queued && !procs[r].runnable then procs[r].(queued := false, runnable := true)
                      else procs[r]
  }

  /** A close takes three statements: the flag is clear, the reference given back, every sleeper
      woken and nobody else disturbed. */
  lemma CloseFrees(s: State, p: nat)
    requires p in s.procs && s.procs[p].pc == Holding && QueueSound(s.procs[p])
    ensures var acts := [Close(p)] + Steps(p, 3);
            CanRun(s, acts) && var s' := After(s, acts);
            && !s'.open && s'.refs == s.refs - 1
            && OthersWoken(s.procs, s'.procs, p) && s'.procs[p] == s.procs[p].(pc := Outside)
  {
    var q := s.procs[p];
    Closes(s, p, q);
    assert Next(s, Close(p)) == With(s, p, q.(pc := Closing));
    First(s, Close(p), Steps(p, 3));
    WakingTheOthers(s.procs, p, q.(pc := Cleared), q.(pc := Awoke), q.(pc := Outside));
  }

  lemma Closes(s: State, p: nat, q: Proc)
    ensures CanRun(With(s, p, q.(pc := Closing)), Steps(p, 3))
    ensures After(With(s, p, q.(pc := Closing)), Steps(p, 3))
         == State(false, s.refs - 1,
                  WakeAll(s.procs[p := q.(pc := Cleared)])[p := q.(pc := Awoke)][p := q.(pc := Outside)])
  {
    var cleared := With(s.(open := false), p, q.(pc := Cleared));
    ClosesAfterwards(s, p, q, State(false, s.refs, WakeAll(cleared.procs)[p := q.(pc := Awoke)]));
    Steps1(s, p, q.(pc := Closing), Effect(q.(pc := Cleared), false, 0, false), 2, cleared);
  }

  lemma ClosesAfterwards(s: State, p: nat, q: Proc, woken: State)
    requires var cleared := With(s.(open := false), p, q.(pc := Cleared));
             woken == State(false, s.refs, WakeAll(cleared.procs)[p := q.(pc := Awoke)])
    ensures var cleared := With(s.(open := false), p, q.(pc := Cleared));
            CanRun(cleared, Steps(p, 2)) &&
            After(cleared, Steps(p, 2)) == State(false, s.refs - 1, woken.procs[p := q.(pc := Outside)])
  {
    assert With(woken, p, q.(pc := Awoke)) == woken;
    Steps1(woken, p, q.(pc := Awoke), Effect(q.(pc := Outside), false, -1, false), 0,
           State(false, s.refs - 1, woken.procs[p := q.(pc := Outside)]));
    Wakes(s.(open := false), p, q.(pc := Cleared), woken);
    OneStep(With(s.(open := false), p, q.(pc := Cleared)), p, 1, woken);
  }

  lemma Wakes(s: State, p: nat, q: Proc, t: State)
    requires q.pc == Cleared && t == State(s.open, s.refs, WakeAll(With(s, p, q).procs)[p := q.(pc := Awoke)])
    ensures Enabled(With(s, p, q), Advance(p)) && Next(With(s, p, q), Advance(p)) == t
  {
  }

  lemma WakingTheOthers(procs: map<nat, Proc>, p: nat, q: Proc, q': Proc, q'': Proc)
    requires p in procs
    ensures OthersWoken(procs, WakeAll(procs[p := q])[p := q'][p := q''], p)
  {
  }

  /** So a close hands the file on: a sleeper that then takes its statements holds it. */
  lemma CloseHandsOn(s: State, p: nat, r: nat)
    requires p in s.procs && s.procs[p].pc == Holding && QueueSound(s.procs[p])
    requires r in s.procs && Asleep(s.procs[r]) && QueueSound(s.procs[r])
    ensures var acts := ([Close(p)] + Steps(p, 3)) + Steps(r, 6);
            CanRun(s, acts) && var s' := After(s, acts);
            && s'.open && s'.refs == s.refs - 1
            && r in s'.procs && s'.procs[r].pc == Holding && p in s'.procs && s'.procs[p].pc == Outside
  {
    CloseFrees(s, p);
    var s1 := After(s, [Close(p)] + Steps(p, 3));
    WokenTakesFile(s1, r);
    RunJoins(s, [Close(p)] + Steps(p, 3), Steps(r, 6));
  }
}
