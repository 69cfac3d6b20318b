/** When a list drains, pauses and is signalled, told from its outcomes alone, and what may still start
    after the outcome that made it so. */
module SchedulerFlags {
  import opened Options
  import opened Graphs
  import opened JoinTable
  import opened SchedulerModel
  import opened SchedulerRuns

  /** An outcome after which nothing but cleanup may start: a pause, or a failure that nobody tolerates,
      of a list that stops at failures or of a gate that was rejected. */
  predicate StopsOthers(o: Outcome, keepGoing: bool) {
    || o.status.Paused?
    || ((o.status.Failed? || o.status.Interrupted? || o.status.Rejected?) && !o.tolerated && (keepGoing ==> o.vetoed))
  }

  /** An outcome that tells the run to stop or to pause. */
  predicate Signals(o: Outcome) {
    o.control == RunStopped || o.control == RunPaused
  }

  ghost predicate DrainsExactly(g: Graph, st: State) {
    st.draining <==> exists s | s in st.outcomes :: StopsOthers(st.outcomes[s], g.keepGoing)
  }

  ghost predicate PausesExactly(st: State) {
    st.paused <==> exists s | s in st.outcomes :: st.outcomes[s].status == Status.Paused
  }

  /** A pause beats a stop, and a stop beats nothing. */
  ghost predicate SignalledExactly(st: State) {
    && (st.control == RunPaused <==> exists s | s in st.outcomes :: st.outcomes[s].control == RunPaused)
    && (st.control == NoControl <==> forall s | s in st.outcomes :: !Signals(st.outcomes[s]))
  }

  /** Every launch and every settling is in the trace, and one that stops the others is dirty there. */
  ghost predicate Traced(g: Graph, st: State) {
    && (forall s :: s in st.outcomes <==> exists e | e in st.trace :: e.Settle? && e.id == s)
    && (forall s :: s in st.launched <==> exists e | e in st.trace :: e.Launch? && e.id == s)
    && forall e | e in st.trace && e.Settle? && e.id in st.outcomes ::
         StopsOthers(st.outcomes[e.id], g.keepGoing) || Signals(st.outcomes[e.id]) ==> e.dirty
  }

  /** What one outcome does to the flags. */
  lemma RecordedExactly(g: Graph, st: State, s: Id, o: Outcome)
    ensures var next := Recorded(g, st, s, o);
            && next.outcomes == st.outcomes[s := o]
            && (next.draining <==> st.draining || StopsOthers(o, g.keepGoing))
            && (next.paused <==> st.paused || o.status.Paused?)
            && next.control == if o.control.RunPaused? || st.control.RunPaused? then RunPaused
                               else if st.control.NoControl? then o.control else st.control
  {}

  // ----- one more outcome -----------------------------------------------------------------------

  lemma RecordedDrains(g: Graph, st: State, s: Id, o: Outcome)
    requires s !in st.outcomes && DrainsExactly(g, st) && PausesExactly(st)
    ensures DrainsExactly(g, Recorded(g, st, s, o)) && PausesExactly(Recorded(g, st, s, o))
  {
    var next := Recorded(g, st, s, o);
    assert next.outcomes[s] == o;
    forall x | x in st.outcomes ensures x in next.outcomes && next.outcomes[x] == st.outcomes[x] {}
  }

  lemma RecordedSignals(g: Graph, st: State, s: Id, o: Outcome)
    requires s !in st.outcomes && SignalledExactly(st)
    ensures SignalledExactly(Recorded(g, st, s, o))
  {
    var next := Recorded(g, st, s, o);
    assert next.outcomes[s] == o;
    forall x | x in st.outcomes ensures x in next.outcomes && next.outcomes[x] == st.outcomes[x] {}
  }

  /** An event more. */
  lemma TraceMore(trace: seq<Event>, e: Event)
    ensures forall x :: x in trace + [e] <==> x in trace || x == e
  {}

  lemma RecordedTraced(g: Graph, st: State, s: Id, o: Outcome)
    requires s !in st.outcomes && Traced(g, st)
    ensures Traced(g, Recorded(g, st, s, o))
  {
    var next := Recorded(g, st, s, o);
    var e := Settle(s, Dirty(next));
    TraceMore(st.trace, e);
    assert e in next.trace && next.outcomes[s] == o;
    forall x ensures x in next.launched <==> exists y | y in next.trace :: y.Launch? && y.id == x {}
    forall x ensures x in next.outcomes <==> exists y | y in next.trace :: y.Settle? && y.id == x {}
  }

  lemma LaunchedTraced(g: Graph, st: State, s: Id, v: Option<Verdict>)
    requires Traced(g, st)
    ensures Traced(g, Launched(st, s, v))
  {
    var next := Launched(st, s, v);
    var e := Launch(s, Dirty(st));
    TraceMore(st.trace, e);
    assert e in next.trace;
    forall x ensures x in next.launched <==> exists y | y in next.trace :: y.Launch? && y.id == x {}
    forall x ensures x in next.outcomes <==> exists y | y in next.trace :: y.Settle? && y.id == x {}
  }

  ghost predicate Told(g: Graph, st: State) {
    DrainsExactly(g, st) && PausesExactly(st) && SignalledExactly(st) && Traced(g, st)
  }

  lemma RecordedTold(g: Graph, st: State, s: Id, o: Outcome)
    requires s !in st.outcomes && Told(g, st)
    ensures Told(g, Recorded(g, st, s, o))
  {
    RecordedDrains(g, st, s, o);
    RecordedSignals(g, st, s, o);
    RecordedTraced(g, st, s, o);
  }

  /** It tells nothing about what is pending or running. */
  lemma ToldAnyway(g: Graph, st: State, next: State)
    requires Told(g, st)
    requires next.outcomes == st.outcomes && next.launched == st.launched && next.trace == st.trace
    requires next.draining == st.draining && next.paused == st.paused && next.control == st.control
    ensures Told(g, next)
  {}

  lemma SettledTold(g: Graph, st: State, s: Id, o: Outcome, v: Option<Verdict>)
    requires Placed(g, st) && Told(g, st) && s in st.pending
    ensures Told(g, Settled(g, st, s, o, v))
  {
    ToldAnyway(g, st, Noted(st, s, v));
    RecordedTold(g, Noted(st, s, v), s, o);
  }

  lemma LaunchedTold(g: Graph, st: State, s: Id, v: Option<Verdict>)
    requires Told(g, st)
    ensures Told(g, Launched(st, s, v))
  {
    LaunchedTraced(g, st, s, v);
  }

  lemma ReceivedTold(g: Graph, st: State, s: Id, o: Outcome)
    requires Placed(g, st) && Told(g, st) && s in st.running
    ensures Told(g, Received(g, st, s, o))
  {
    var before := st.(running := st.running - {s});
    ToldAnyway(g, st, before);
    RecordedTold(g, before, s, o);
  }

  lemma StepTells(g: Graph, st: State, next: State)
    requires Placed(g, st) && Told(g, st) && Next(g, st, next)
    ensures Told(g, next)
  {
    if s, o, v :| CanSettle(g, st, s, o, v) && next == Settled(g, st, s, o, v) {
      SettledTold(g, st, s, o, v);
    } else if s, v :| CanLaunch(g, st, s, v) && next == Launched(st, s, v) {
      LaunchedTold(g, st, s, v);
    } else if s, o :| s in st.running && Delivered(o) && next == Received(g, st, s, o) {
      ReceivedTold(g, st, s, o);
    } else {
      ToldAnyway(g, st, next);
    }
  }

  lemma {:induction false} ReachableTold(g: Graph, states: seq<State>)
    requires ValidGraph(g) && Execution(g, states)
    ensures Told(g, states[|states| - 1])
    decreases |states|
  {
    if |states| > 1 {
      var before := states[..|states| - 1];
      forall i | 0 <= i < |before| - 1 ensures Next(g, before[i], before[i + 1]) {
        assert Next(g, states[i], states[i + 1]);
      }
      ReachableTold(g, before);
      ReachableInv(g, before);
      StepTells(g, states[|states| - 2], states[|states| - 1]);
    }
  }

  // ----- the statements -------------------------------------------------------------------------

  /** In every reachable state the list drains if and only if some outcome paused, or failed untolerated
      where failures stop the list or a gate was rejected; it is paused if and only if some outcome is;
      and its signal is a pause if there was one, else a stop if there was one. */
  lemma FlagsExactly(g: Graph, states: seq<State>)
    requires ValidGraph(g) && Execution(g, states)
    ensures var st := states[|states| - 1];
            && (st.draining <==> exists s | s in st.outcomes ::
                  var o := st.outcomes[s];
                  || o.status.Paused?
                  || ((o.status.Failed? || o.status.Interrupted? || o.status.Rejected?) && !o.tolerated
                      && (o.vetoed || !g.keepGoing)))
            && (st.paused <==> exists s | s in st.outcomes :: st.outcomes[s].status.Paused?)
            && (st.control.RunPaused? <==> exists s | s in st.outcomes :: st.outcomes[s].control.RunPaused?)
            && (st.control.NoControl? <==> forall s | s in st.outcomes :: st.outcomes[s].control.NoControl?)
  {
    ReachableTold(g, states);
    var st := states[|states| - 1];
    forall s | s in st.outcomes
      ensures StopsOthers(st.outcomes[s], g.keepGoing) <==>
              var o := st.outcomes[s];
              || o.status.Paused?
              || ((o.status.Failed? || o.status.Interrupted? || o.status.Rejected?) && !o.tolerated
                  && (o.vetoed || !g.keepGoing))
      ensures Signals(st.outcomes[s]) <==> !st.outcomes[s].control.NoControl?
    {}
  }

  /** After such an outcome, or one that signals, only cleanup steps are launched. */
  lemma OnlyCleanupAfter(g: Graph, states: seq<State>, i: nat, j: nat)
    requires ValidGraph(g) && Execution(g, states)
    requires var st := states[|states| - 1];
             && i < j < |st.trace| && st.trace[i].Settle? && st.trace[j].Launch?
             && st.trace[i].id in st.outcomes
             && (StopsOthers(st.outcomes[st.trace[i].id], g.keepGoing) || Signals(st.outcomes[st.trace[i].id]))
    ensures var e := states[|states| - 1].trace[j];
            e.id in g.info && g.info[e.id].join == Always
  {
    ReachableTold(g, states);
    var trace := states[|states| - 1].trace;
    assert trace[i] in trace;
    DirtyIsSticky(g, states, i, j);
  }

  /** A step is skipped as `run_failed` only when such an outcome or a signal was there. */
  lemma RunFailedIsTrue(g: Graph, states: seq<State>, s: Id)
    requires ValidGraph(g) && Execution(g, states)
    requires var st := states[|states| - 1];
             s in st.outcomes && s !in st.launched && st.outcomes[s] == SkippedOutcome(RunFailed)
    ensures var st := states[|states| - 1];
            exists x | x in st.outcomes :: StopsOthers(st.outcomes[x], g.keepGoing) || Signals(st.outcomes[x])
  {
    var st := states[|states| - 1];
    ReachableTold(g, states);
    ReachableExplained(g, states);
    assert ExplainedAt(g, st, s);
    RunFailedDrains(g, st, s);
    if forall x | x in st.outcomes :: !StopsOthers(st.outcomes[x], g.keepGoing) && !Signals(st.outcomes[x]) {
      NothingDrains(g, st);
    }
  }

  lemma NothingDrains(g: Graph, st: State)
    requires DrainsExactly(g, st) && SignalledExactly(st)
    requires forall x | x in st.outcomes :: !StopsOthers(st.outcomes[x], g.keepGoing) && !Signals(st.outcomes[x])
    ensures !Draining(st)
  {}

  lemma RunFailedDrains(g: Graph, st: State, s: Id)
    requires ExplainedAt(g, st, s) && s !in st.launched && st.outcomes[s] == SkippedOutcome(RunFailed)
    ensures Draining(st)
  {}

  // ----- what may start later -------------------------------------------------------------------

  /** Capped, draining or signalled, told from the outcomes. */
  ghost predicate MayOnlyCleanUp(g: Graph, st: State) {
    st.capped || exists s | s in st.outcomes :: StopsOthers(st.outcomes[s], g.keepGoing) || Signals(st.outcomes[s])
  }

  lemma DirtyExactly(g: Graph, st: State)
    requires DrainsExactly(g, st) && SignalledExactly(st)
    ensures Dirty(st) <==> MayOnlyCleanUp(g, st)
  {
    if !MayOnlyCleanUp(g, st) {
      NothingDrains(g, st);
    }
  }

  lemma LaunchesOnlyCleanup(g: Graph, st: State, next: State)
    requires Next(g, st, next) && Dirty(st)
    ensures forall s | s in next.launched - st.launched :: s in g.info && g.info[s].join == Always
  {
    if s, o, v :| CanSettle(g, st, s, o, v) && next == Settled(g, st, s, o, v) {
      assert next.launched == st.launched;
    } else if s, v :| CanLaunch(g, st, s, v) && next == Launched(st, s, v) {
      assert next.launched == st.launched + {s};
    } else if s, o :| s in st.running && Delivered(o) && next == Received(g, st, s, o) {
      assert next.launched == st.launched;
    }
  }

  lemma {:induction false} ToldAt(g: Graph, states: seq<State>, n: nat)
    requires ValidGraph(g) && Execution(g, states) && n < |states|
    ensures Told(g, states[n])
  {
    var some := states[..n + 1];
    forall i | 0 <= i < |some| - 1 ensures Next(g, some[i], some[i + 1]) {
      assert Next(g, states[i], states[i + 1]);
    }
    ReachableTold(g, some);
  }

  /** What stops the others is never taken back. */
  lemma StillOnlyCleanUp(g: Graph, st: State, next: State)
    requires Placed(g, st) && Next(g, st, next) && MayOnlyCleanUp(g, st)
    ensures MayOnlyCleanUp(g, next)
  {
    OutcomesStay(g, st, next);
    if !st.capped {
      var s :| s in st.outcomes && (StopsOthers(st.outcomes[s], g.keepGoing) || Signals(st.outcomes[s]));
      assert s in next.outcomes && next.outcomes[s] == st.outcomes[s];
    }
  }

  /** Nothing that was settled or capped is taken back. */
  predicate Stays(st: State, next: State) {
    && (forall s | s in st.outcomes :: s in next.outcomes && next.outcomes[s] == st.outcomes[s])
    && (st.capped ==> next.capped)
  }

  lemma RecordedStays(g: Graph, st: State, s: Id, o: Outcome)
    requires s !in st.outcomes
    ensures Stays(st, Recorded(g, st, s, o))
  {}

  lemma SettledStays(g: Graph, st: State, s: Id, o: Outcome, v: Option<Verdict>)
    requires Placed(g, st) && s in st.pending
    ensures Stays(st, Settled(g, st, s, o, v))
  {
    RecordedStays(g, Noted(st, s, v), s, o);
  }

  lemma ReceivedStays(g: Graph, st: State, s: Id, o: Outcome)
    requires Placed(g, st) && s in st.running
    ensures Stays(st, Received(g, st, s, o))
  {
    RecordedStays(g, st.(running := st.running - {s}), s, o);
  }

  lemma OutcomesStay(g: Graph, st: State, next: State)
    requires Placed(g, st) && Next(g, st, next)
    ensures Stays(st, next)
  {
    if s, o, v :| CanSettle(g, st, s, o, v) && next == Settled(g, st, s, o, v) {
      SettledStays(g, st, s, o, v);
    } else if s, o :| s in st.running && Delivered(o) && next == Received(g, st, s, o) {
      ReceivedStays(g, st, s, o);
    }
  }

  /** Every step launched in between is a cleanup step. */
  predicate OnlyCleanups(g: Graph, before: State, after: State) {
    forall s | s in after.launched - before.launched :: s in g.info && g.info[s].join == Always
  }

  lemma CleanupStep(g: Graph, st: State, next: State)
    requires Placed(g, st) && Told(g, st) && Next(g, st, next) && MayOnlyCleanUp(g, st)
    ensures MayOnlyCleanUp(g, next) && OnlyCleanups(g, st, next)
  {
    DirtyExactly(g, st);
    LaunchesOnlyCleanup(g, st, next);
    StillOnlyCleanUp(g, st, next);
  }

  lemma CleanupsJoin(g: Graph, a: State, b: State, c: State)
    requires OnlyCleanups(g, a, b) && OnlyCleanups(g, b, c)
    ensures OnlyCleanups(g, a, c)
  {}

  /** One step of a run that may only clean up. */
  ghost predicate CleansUp(g: Graph, st: State, next: State) {
    MayOnlyCleanUp(g, st) ==> MayOnlyCleanUp(g, next) && OnlyCleanups(g, st, next)
  }

  lemma CleanupAt(g: Graph, states: seq<State>, j: nat)
    requires ValidGraph(g) && Execution(g, states) && j + 1 < |states|
    ensures CleansUp(g, states[j], states[j + 1])
  {
    if MayOnlyCleanUp(g, states[j]) {
      ToldAt(g, states, j);
      PlacedAt(g, states, j);
      CleanupStep(g, states[j], states[j + 1]);
    }
  }

  lemma {:induction false} CleanupsFrom(g: Graph, states: seq<State>, i: nat, j: nat)
    requires i <= j < |states| && MayOnlyCleanUp(g, states[i])
    requires forall k | 0 <= k < |states| - 1 :: CleansUp(g, states[k], states[k + 1])
    ensures MayOnlyCleanUp(g, states[j]) && OnlyCleanups(g, states[i], states[j])
    decreases j
  {
    if i < j {
      CleanupsFrom(g, states, i, j - 1);
      assert CleansUp(g, states[j - 1], states[j - 1 + 1]);
      CleanupsJoin(g, states[i], states[j - 1], states[j]);
    }
  }

  /** From the moment the run is capped, or an outcome stops the others or signals, every step launched is
      a cleanup step. */
  lemma LaterOnlyCleanup(g: Graph, states: seq<State>, i: nat, j: nat)
    requires ValidGraph(g) && Execution(g, states) && i <= j < |states| && MayOnlyCleanUp(g, states[i])
    ensures MayOnlyCleanUp(g, states[j]) && OnlyCleanups(g, states[i], states[j])
  {
    forall k | 0 <= k < |states| - 1 ensures CleansUp(g, states[k], states[k + 1]) {
      CleanupAt(g, states, k);
    }
    CleanupsFrom(g, states, i, j);
  }

  lemma PlacedAt(g: Graph, states: seq<State>, n: nat)
    requires ValidGraph(g) && Execution(g, states) && n < |states|
    ensures Placed(g, states[n])
  {
    var some := states[..n + 1];
    forall i | 0 <= i < |some| - 1 ensures Next(g, some[i], some[i + 1]) {
      assert Next(g, states[i], states[i + 1]);
    }
    ReachableInv(g, some);
  }

  // ----- why a step did not run -----------------------------------------------------------------

  predicate SkippedFor(o: Outcome, reason: Reason) {
    o.status == Status.Skipped && o.reason == Some(reason) && o.control == NoControl && !o.tolerated && !o.vetoed
  }

  /** What its needs ended with. */
  predicate SomeNeedFailed(g: Graph, st: State, s: Id)
    requires Decidable(g.needs, st.outcomes, s)
  {
    exists d | d in g.needs[s] ::
      var o := st.outcomes[d];
      o.status in {Status.Interrupted, Status.Rejected} || (o.status == Status.Failed && !o.tolerated)
  }

  predicate SomeNeedSkipped(g: Graph, st: State, s: Id)
    requires Decidable(g.needs, st.outcomes, s)
  {
    exists d | d in g.needs[s] :: st.outcomes[d].status == Status.Skipped
  }

  /** Every way not to run, with what must have been the case: a need that failed or was skipped, a list
      that drains or is signalled, a `when:` that does not hold or is broken, a cap (replayed from the
      cache, or skipped), a stop. */
  predicate WhyNot(g: Graph, st: State, s: Id, o: Outcome)
    requires s in g.info && Decidable(g.needs, st.outcomes, s)
  {
    var step := g.info[s];
    || (SkippedFor(o, UpstreamFailed) && step.join != Always && SomeNeedFailed(g, st, s))
    || (SkippedFor(o, UpstreamSkipped) && step.join != Always && SomeNeedSkipped(g, st, s) && !SomeNeedFailed(g, st, s))
    || (SkippedFor(o, RunFailed) && step.join != Always && Draining(st) && !SomeNeedFailed(g, st, s))
    || (SkippedFor(o, WhenFalse) && step.hasWhen)
    || (o.status == Status.Failed && step.hasWhen && o.tolerated == step.allowFailure && !o.vetoed
        && o.control == NoControl)
    || (st.capped && step.join != Always && (SkippedFor(o, BudgetExceeded) || SkippedFor(o, CancelRequested)))
    || (st.capped && step.join != Always && o.control == NoControl
        && (o.status == Status.Succeeded || (o.status == Status.Failed && o.tolerated)))
    || (!st.control.NoControl? && step.join != Always && SkippedFor(o, StoppedRun))
  }

  /** The needs' outcomes, asked by value or by step. */
  lemma NeedsTell(g: Graph, st: State, s: Id)
    requires s in g.info && Decidable(g.needs, st.outcomes, s)
    ensures var os := NeedOutcomes(g.needs[s], st.outcomes);
            && (forall o | o in os :: Terminal(o.status))
            && ((exists o | o in os :: !Ok(o) && !o.status.Skipped?) <==> SomeNeedFailed(g, st, s))
            && ((exists o | o in os :: o.status.Skipped?) <==> SomeNeedSkipped(g, st, s))
  {
    var os := NeedOutcomes(g.needs[s], st.outcomes);
    forall i | 0 <= i < |os| ensures os[i] == st.outcomes[g.needs[s][i]] && g.needs[s][i] in g.needs[s] {}
    forall d | d in g.needs[s] ensures st.outcomes[d] in os && Terminal(st.outcomes[d].status) {
      var i :| 0 <= i < |os| && g.needs[s][i] == d;
      assert os[i] == st.outcomes[d];
    }
  }

  /** The join table's reasons, read off the needs. */
  lemma TableReasons(g: Graph, st: State, s: Id, draining: bool)
    requires s in g.info && Decidable(g.needs, st.outcomes, s) && s in st.outcomes
    requires TableExplains(g, st.outcomes, s, draining) && (draining ==> Draining(st))
    ensures WhyNot(g, st, s, st.outcomes[s])
  {
    var os := NeedOutcomes(g.needs[s], st.outcomes);
    NeedsTell(g, st, s);
    JoinSkipsExactly(g.info[s].join, os, draining);
    var d := Joined(g, st.outcomes, s, draining);
    if d == Some(Skip(UpstreamSkipped)) && os != [] {
      assert os[0] in os;
    }
  }

  /** In every reachable state each step that was settled without running has such a reason. */
  lemma NotRunExactly(g: Graph, states: seq<State>, s: Id)
    requires ValidGraph(g) && Execution(g, states)
    requires var st := states[|states| - 1]; s in st.outcomes && s !in st.launched
    ensures var st := states[|states| - 1];
            s in g.info && Decidable(g.needs, st.outcomes, s) && WhyNot(g, st, s, st.outcomes[s])
  {
    ReachableExplained(g, states);
    var st := states[|states| - 1];
    assert ExplainedAt(g, st, s);
    if TableExplains(g, st.outcomes, s, false) {
      TableReasons(g, st, s, false);
    } else if Draining(st) && TableExplains(g, st.outcomes, s, true) {
      TableReasons(g, st, s, true);
    }
  }

  // ----- what `when:` decides -------------------------------------------------------------------

  /** What was said of a step's `when:` is what became of it. */
  predicate WhenHeeded(g: Graph, st: State, s: Id) {
    && (s in st.launched ==> s in g.info && (g.info[s].hasWhen <==> s in st.verdicts))
    && (s in st.verdicts ==>
          match st.verdicts[s]
          case Holds => s in st.launched
          case DoesNotHold => s !in st.launched && s in st.outcomes && SkippedFor(st.outcomes[s], WhenFalse)
          case Broken(e) =>
            && s !in st.launched && s in st.outcomes && s in g.info
            && st.outcomes[s].status == Status.Failed && st.outcomes[s].output == e
            && st.outcomes[s].tolerated == g.info[s].allowFailure)
  }

  ghost predicate AllHeeded(g: Graph, st: State) {
    forall s :: WhenHeeded(g, st, s)
  }

  lemma HeededSettled(g: Graph, st: State, s: Id, o: Outcome, v: Option<Verdict>)
    requires Placed(g, st) && AllHeeded(g, st) && CanSettle(g, st, s, o, v)
    ensures AllHeeded(g, Settled(g, st, s, o, v))
  {
    var next := Settled(g, st, s, o, v);
    forall x ensures WhenHeeded(g, next, x) {
      assert WhenHeeded(g, st, x);
      assert x == s ==> x !in st.launched && x !in st.verdicts;
    }
  }

  lemma HeededLaunched(g: Graph, st: State, s: Id, v: Option<Verdict>)
    requires Placed(g, st) && AllHeeded(g, st) && CanLaunch(g, st, s, v)
    ensures AllHeeded(g, Launched(st, s, v))
  {
    var next := Launched(st, s, v);
    forall x ensures WhenHeeded(g, next, x) {
      assert WhenHeeded(g, st, x);
      assert x == s ==> x !in st.launched && x !in st.verdicts;
    }
  }

  lemma HeededReceived(g: Graph, st: State, s: Id, o: Outcome)
    requires Placed(g, st) && AllHeeded(g, st) && s in st.running
    ensures AllHeeded(g, Received(g, st, s, o))
  {
    var next := Received(g, st, s, o);
    forall x ensures WhenHeeded(g, next, x) {
      assert WhenHeeded(g, st, x);
    }
  }

  lemma HeededStep(g: Graph, st: State, next: State)
    requires Placed(g, st) && AllHeeded(g, st) && Next(g, st, next)
    ensures AllHeeded(g, next)
  {
    if s, o, v :| CanSettle(g, st, s, o, v) && next == Settled(g, st, s, o, v) {
      HeededSettled(g, st, s, o, v);
    } else if s, v :| CanLaunch(g, st, s, v) && next == Launched(st, s, v) {
      HeededLaunched(g, st, s, v);
    } else if s, o :| s in st.running && Delivered(o) && next == Received(g, st, s, o) {
      HeededReceived(g, st, s, o);
    } else {
      HeededCapped(g, st);
    }
  }

  lemma HeededCapped(g: Graph, st: State)
    requires AllHeeded(g, st)
    ensures AllHeeded(g, st.(capped := true))
  {
    forall x ensures WhenHeeded(g, st.(capped := true), x) {
      assert WhenHeeded(g, st, x);
    }
  }

  lemma HeededAt(g: Graph, states: seq<State>, n: nat)
    requires ValidGraph(g) && Execution(g, states) && n + 1 < |states| && AllHeeded(g, states[n])
    ensures AllHeeded(g, states[n + 1])
  {
    PlacedAt(g, states, n);
    HeededStep(g, states[n], states[n + 1]);
  }

  /** In every reachable state a step with a `when:` runs if and only if it held, whatever else went on;
      one that does not hold skips the step, and a broken one fails it. */
  lemma {:induction false} WhenExactly(g: Graph, states: seq<State>, n: nat, s: Id)
    requires ValidGraph(g) && Execution(g, states) && n < |states|
    ensures WhenHeeded(g, states[n], s)
    ensures AllHeeded(g, states[n])
    decreases n
  {
    if n > 0 {
      WhenExactly(g, states, n - 1, s);
      HeededAt(g, states, n - 1);
    }
    assert AllHeeded(g, states[n]);
  }

  /** A run that was not capped, and none of whose outcomes stops the others or signals, ended as
      evaluating the steps one after the other does: so does every run under `continue` in which nothing
      paused, stopped or was rejected. */
  lemma CalmRunIsSequential(g: Graph, exec: Executor, holds: Condition, states: seq<State>, order: seq<Id>)
    requires ValidGraph(g) && Execution(g, states) && Topological(g.needs, order)
    requires var st := states[|states| - 1];
             && !st.capped && st.outcomes.Keys == g.needs.Keys && Follows(g, exec, holds, st)
             && forall s | s in st.outcomes ::
                  !StopsOthers(st.outcomes[s], g.keepGoing) && !Signals(st.outcomes[s])
    ensures states[|states| - 1].outcomes == Sequential(g, exec, holds, order)
  {
    ReachableTold(g, states);
    NothingDrains(g, states[|states| - 1]);
    ConcurrentIsSequential(g, exec, holds, states, order);
  }
}
