/** `run_graph` itself: the loops that decide, launch, settle, tear down and wind down. The
    environment chooses when the cap or a cancellation strikes, what each `when:` says, which
    running step ends next and how; every choice it can make is a transition of the model. */
module Scheduling {
  import opened Options
  import opened Graphs
  import opened JoinTable
  import opened SchedulerModel
  import opened SchedulerRuns
  import opened SchedulerFlags

  datatype Choice = SettleIt(outcome: Outcome, verdict: Option<Verdict>) | LaunchIt(verdict: Option<Verdict>)

  lemma PrefixGrows(ids: seq<Id>, i: nat)
    requires i < |ids|
    ensures Elements(ids[..i + 1]) == Elements(ids[..i]) + {ids[i]} && Elements(ids[..|ids|]) == Elements(ids)
  {
    assert ids[..i + 1] == ids[..i] + [ids[i]] && ids[..|ids|] == ids;
  }

  lemma ExecutionSnoc(g: Graph, history: seq<State>, next: State)
    requires Execution(g, history) && Next(g, history[|history| - 1], next)
    ensures Execution(g, history + [next])
  {}

  /** A delivery came that tears the list down, a signal or in a fail-fast list a failure, and others still
      run: they are cancelled. */
  predicate Halted(failFast: bool, before: State, after: State) {
    && after.running < before.running && after.running != {}
    && ((failFast && after.draining) || !after.control.NoControl?)
  }

  /** Only a delivery. */
  predicate Delivers(before: State, after: State) {
    after.pending == before.pending && after.running < before.running
  }

  predicate HaltsAt(failFast: bool, history: seq<State>, n: nat)
    requires n < |history|
  {
    2 <= n && Halted(failFast, history[n - 2], history[n - 1]) ==> Delivers(history[n - 1], history[n])
  }

  /** Once the list is torn down nothing is decided before every step that runs has delivered. */
  predicate Halts(failFast: bool, history: seq<State>) {
    forall n | 0 <= n < |history| :: HaltsAt(failFast, history, n)
  }

  /** The next step need not be a delivery. */
  predicate MayDecide(failFast: bool, history: seq<State>) {
    2 <= |history| ==> !Halted(failFast, history[|history| - 2], history[|history| - 1])
  }

  lemma HaltsMore(failFast: bool, history: seq<State>, next: State)
    requires history != [] && Halts(failFast, history)
    requires MayDecide(failFast, history) || Delivers(history[|history| - 1], next)
    ensures Halts(failFast, history + [next])
  {
    forall n | 0 <= n < |history| + 1 ensures HaltsAt(failFast, history + [next], n) {
      assert n < |history| ==> HaltsAt(failFast, history, n);
    }
  }

  lemma FreeAfter(failFast: bool, history: seq<State>, next: State)
    requires history != [] && history[|history| - 1].running <= next.running
    ensures MayDecide(failFast, history + [next])
  {}

  /** Draining and a signal are never taken back. */
  lemma FlagsStay(g: Graph, st: State, next: State)
    requires Next(g, st, next)
    ensures (st.draining ==> next.draining) && (!st.control.NoControl? ==> !next.control.NoControl?)
  {}

  /** So from such a moment on no step leaves the pending ones while others run. */
  lemma {:induction false} NothingDecided(g: Graph, failFast: bool, history: seq<State>, n: nat, m: nat)
    requires Execution(g, history) && Halts(failFast, history)
    requires 0 < n <= m < |history| && Halted(failFast, history[n - 1], history[n])
    requires forall k | n <= k < m :: history[k].running != {}
    ensures history[m].pending == history[n].pending
    decreases m - n
  {
    if n < m {
      assert HaltsAt(failFast, history, n + 1);
      FlagsStay(g, history[n], history[n + 1]);
      if history[n + 1].running != {} {
        NothingDecided(g, failFast, history, n + 1, m);
      } else {
        assert m == n + 1;
      }
    }
  }

  /** Something ran in every state from `from` on, but for the last one. */
  predicate Busy(history: seq<State>, from: nat) {
    forall n | from <= n + 1 < |history| && 0 <= n :: history[n].running != {}
  }

  lemma BusyMore(history: seq<State>, from: nat)
    requires history != [] && Busy(history, from) && history[|history| - 1].running != {}
    ensures forall next: State :: Busy(history + [next], from)
  {}

  lemma {:induction false} UnsignalledBefore(history: seq<State>, m: nat, n: nat)
    requires m <= n < |history| && history[n].control.NoControl?
    requires forall k | 0 <= k < |history| - 1 && history[k + 1].control.NoControl? :: history[k].control.NoControl?
    ensures history[m].control.NoControl?
    decreases n - m
  {
    if m < n {
      assert history[n - 1 + 1].control.NoControl?;
      UnsignalledBefore(history, m, n - 1);
    }
  }

  /** A signal is never taken back. */
  lemma Unsignalled(g: Graph, history: seq<State>, m: nat, n: nat)
    requires Execution(g, history) && m <= n < |history| && history[n].control.NoControl?
    ensures history[m].control.NoControl?
  {
    forall k | 0 <= k < |history| - 1 && history[k + 1].control.NoControl? ensures history[k].control.NoControl? {
      FlagsStay(g, history[k], history[k + 1]);
    }
    UnsignalledBefore(history, m, n);
  }

  lemma DecidableJoins(g: Graph, outcomes: map<Id, Outcome>, s: Id, draining: bool)
    requires s in g.info && Decidable(g.needs, outcomes, s)
    ensures Joined(g, outcomes, s, draining).Some?
    ensures g.info[s].join == Always ==> Joined(g, outcomes, s, draining) == Some(Run)
    ensures g.info[s].join != Always && draining ==> Joined(g, outcomes, s, draining) != Some(Run)
  {
    var os := NeedOutcomes(g.needs[s], outcomes);
    forall o | o in os ensures Terminal(o.status) {
      var i :| 0 <= i < |os| && os[i] == o;
    }
    JoinRunsExactly(g.info[s].join, os, draining);
  }

  lemma FewerLeft(pending: set<Id>, running: set<Id>, s: Id)
    requires s in pending && s !in running
    ensures |pending - {s}| == |pending| - 1 && |running + {s}| == |running| + 1
  {}

  class Scheduler {
    const g: Graph
    const ids: seq<Id>
    const failFast: bool
    var pending: set<Id>
    var running: set<Id>
    var outcomes: map<Id, Outcome>
    var draining: bool
    var control: Control
    var paused: bool
    /** The run-level cap tripped, or a cancellation was requested. */
    var capped: bool
    ghost var launched: set<Id>
    ghost var verdicts: map<Id, Verdict>
    ghost var trace: seq<Event>
    ghost var history: seq<State>

    ghost function View(): State
      reads this
    {
      State(pending, running, outcomes, draining, control, paused, capped, launched, verdicts, trace)
    }

    /** The history is a run of the list. */
    ghost predicate Past()
      reads this`history
    {
      ValidGraph(g) && Elements(ids) == g.needs.Keys && Execution(g, history) && Halts(failFast, history)
    }

    ghost predicate Valid()
      reads this
    {
      Past() && history[|history| - 1] == View()
    }

    constructor (steps: seq<Graphs.Step>, keepGoing: bool, failFast: bool)
      requires UniqueIds(steps) && Acyclic(KnownNeeds(steps))
      ensures Valid() && View() == Initial(g) && this.failFast == failFast
      ensures ids == Ids(steps) && g == Graph(KnownNeeds(steps), ById(steps), keepGoing)
    {
      ids, g, this.failFast := Ids(steps), Graph(KnownNeeds(steps), ById(steps), keepGoing), failFast;
      pending, running, outcomes := KnownNeeds(steps).Keys, {}, map[];
      draining, control, paused, capped := false, NoControl, false, false;
      launched, verdicts, trace := {}, map[], [];
      history := [Initial(Graph(KnownNeeds(steps), ById(steps), keepGoing))];
    }

    lemma Reached()
      requires Valid()
      ensures Inv(g, View())
    {
      ReachableInv(g, history);
    }

    // ----- single transitions -------------------------------------------------------------------

    /** `settle`, for a step that is neither pending nor running any more. */
    method Settle(s: Id, o: Outcome)
      modifies `outcomes, `draining, `paused, `control, `trace
      ensures View() == Recorded(g, old(View()), s, o)
    {
      outcomes := outcomes[s := o];
      if FailedLike(o.status) && !o.tolerated && (o.vetoed || !g.keepGoing) {
        draining := true;
      }
      if o.status.Paused? {
        draining := true;
        paused := true;
      }
      if !o.control.NoControl? && (control.NoControl? || (o.control.RunPaused? && !control.RunPaused?)) {
        control := o.control;
      }
      trace := trace + [Event.Settle(s, Dirty(View()))];
    }

    lemma PendingFacts(s: Id)
      requires Valid() && s in pending
      ensures s in g.info && s !in outcomes && s !in running && s !in launched
    {
      Reached();
    }

    ghost method Remember(before: State, next: State)
      requires Past() && history[|history| - 1] == before && next == View()
      requires Next(g, before, next) && (Free() || Delivers(before, next))
      modifies `history
      ensures Valid() && history == old(history) + [next]
      ensures before.running <= next.running ==> Free()
    {
      ExecutionSnoc(g, history, next);
      HaltsMore(failFast, history, next);
      if before.running <= next.running {
        FreeAfter(failFast, history, next);
      }
      history := history + [next];
    }

    /** The next step need not be a delivery. */
    ghost predicate Free()
      reads this`history
    {
      MayDecide(failFast, history)
    }

    method Cap()
      requires Valid() && Free()
      modifies this
      ensures Valid() && Free() && View() == old(View()).(capped := true)
    {
      ghost var before := View();
      capped := true;
      Remember(before, before.(capped := true));
    }

    /** Take a step off `pending` and settle it without launching it. */
    method SettlePending(s: Id, o: Outcome, ghost v: Option<Verdict>)
      requires Valid() && Free() && CanSettle(g, View(), s, o, v)
      modifies this
      ensures Valid() && Free() && View() == Settled(g, old(View()), s, o, v) && history == old(history) + [View()]
    {
      ghost var before := View();
      pending := pending - {s};
      verdicts := if v.Some? then verdicts[s := v.value] else verdicts;
      Settle(s, o);
      SettlingIsNext(g, before, s, o, v);
      Remember(before, Settled(g, before, s, o, v));
    }

    /** `running.add(sid); tg.start_soon(run_one, ...)`. */
    method LaunchStep(s: Id, ghost v: Option<Verdict>)
      requires Valid() && Free() && CanLaunch(g, View(), s, v)
      modifies this
      ensures Valid() && Free() && View() == Launched(old(View()), s, v) && history == old(history) + [View()]
    {
      ghost var before := View();
      ghost var next := Launched(before, s, v);
      pending, running := pending - {s}, running + {s};
      launched, verdicts, trace := next.launched, next.verdicts, next.trace;
      assert View() == next;
      LaunchIsNext(g, before, s, v);
      Remember(before, next);
    }

    /** `running.discard(...); settle(outcome)`. */
    method Deliver(s: Id, o: Outcome)
      requires Valid() && s in running && Delivered(o)
      modifies this
      ensures Valid() && View() == Received(g, old(View()), s, o) && history == old(history) + [View()]
    {
      ghost var before := View();
      running := running - {s};
      Settle(s, o);
      DeliveryIsNext(g, before, s, o);
      Remember(before, Received(g, before, s, o));
    }

    /** A running step delivers some outcome, and it is settled. */
    method Receive(s: Id)
      requires Valid() && s in running
      modifies this
      ensures Valid() && running == old(running) - {s} && pending == old(pending)
      ensures exists o | Delivered(o) :: View() == Received(g, old(View()), s, o)
      ensures history == old(history) + [View()]
      ensures forall x | x in old(outcomes) :: x in outcomes && outcomes[x] == old(outcomes[x])
      ensures (old(draining) ==> draining) && (!old(control).NoControl? ==> !control.NoControl?)
      ensures capped == old(capped)
    {
      RunningFacts(s);
      assert Delivered(SkippedOutcome(RunFailed));
      var o :| Delivered(o);
      ReceivedGrows(g, View(), s, o);
      Deliver(s, o);
    }

    lemma RunningFacts(s: Id)
      requires Valid() && s in running
      ensures s !in outcomes && s !in pending
    {
      Reached();
    }

    // ----- the loops ----------------------------------------------------------------------------

    /** What the join table, the drain and `when:` say about a pending step, nothing changed yet. */
    method Choose(s: Id) returns (c: Choice)
      requires Valid() && s in pending && Decidable(g.needs, outcomes, s)
      ensures c.SettleIt? ==> CanSettle(g, View(), s, c.outcome, c.verdict)
      ensures c.LaunchIt? ==> CanLaunch(g, View(), s, c.verdict)
    {
      Reached();
      DecidableJoins(g, outcomes, s, false);
      DecidableJoins(g, outcomes, s, true);
      var step := g.info[s];
      if capped && step.join != Always {
        var o := CappedOutcome();
        return SettleIt(o, None);
      }
      var decision := Joined(g, outcomes, s, draining || !control.NoControl?).value;
      if decision.Skip? {
        return SettleIt(SkippedOutcome(decision.reason), None);
      }
      if step.hasWhen {
        var v: Verdict := *;
        if v.DoesNotHold? {
          return SettleIt(SkippedOutcome(WhenFalse), Some(v));
        }
        if v.Broken? {
          return SettleIt(WhenFailed(step, v.error), Some(v));
        }
        return LaunchIt(Some(Holds));
      }
      return LaunchIt(None);
    }

    /** One pending step whose needs are all terminal: settled here, or launched. */
    method DecideOne(s: Id) returns (settled: bool)
      requires Valid() && Free() && s in pending && Decidable(g.needs, outcomes, s)
      modifies this
      ensures Valid() && Free() && pending == old(pending) - {s} && control == old(control)
      ensures settled ==> running == old(running)
      ensures !settled ==> running == old(running) + {s} && outcomes == old(outcomes)
      ensures |pending| * 2 + |running| < old(|pending| * 2 + |running|)
    {
      PendingFacts(s);
      var strikes: bool := *;
      if strikes {
        Cap();
      }
      var c := Choose(s);
      FewerLeft(pending, running, s);
      Follow(s, c);
      return c.SettleIt?;
    }

    /** Settles or launches a pending step as chosen. */
    method Follow(s: Id, c: Choice)
      requires Valid() && Free() && s in pending
      requires c.SettleIt? ==> CanSettle(g, View(), s, c.outcome, c.verdict)
      requires c.LaunchIt? ==> CanLaunch(g, View(), s, c.verdict)
      modifies this
      ensures Valid() && Free() && pending == old(pending) - {s} && control == old(control)
      ensures c.SettleIt? ==> running == old(running)
      ensures c.LaunchIt? ==> running == old(running) + {s} && outcomes == old(outcomes)
    {
      match c {
        case SettleIt(o, v) =>
          SettledFacts(g, View(), s, o, v);
          SettlePending(s, o, v);
        case LaunchIt(v) => LaunchStep(s, v);
      }
    }

    /** After a cap: replayed from the resume cache when it can be, else skipped. */
    method CappedOutcome() returns (o: Outcome)
      ensures Reusable(o) || o == SkippedOutcome(BudgetExceeded) || o == SkippedOutcome(CancelRequested)
    {
      var reuse: bool := *;
      var budget: bool := *;
      if reuse {
        assert Reusable(Outcome(Succeeded, false, false, None, NoControl, ""));
        o :| Reusable(o);
        assert Reusable(o);
      } else {
        o := SkippedOutcome(if budget then BudgetExceeded else CancelRequested);
      }
    }

    /** Passes over the pending steps until one settles nothing. */
    method DecideAndLaunch()
      requires Valid() && Free()
      modifies this
      ensures Valid() && Free() && pending <= old(pending) && control == old(control)
      ensures |pending| * 2 + |running| <= old(|pending| * 2 + |running|)
      ensures forall s | s in pending :: !Decidable(g.needs, outcomes, s)
    {
      var progressed := true;
      while progressed
        invariant Valid() && Free() && pending <= old(pending) && control == old(control)
        invariant |pending| * 2 + |running| <= old(|pending| * 2 + |running|)
        invariant !progressed ==> forall s | s in pending :: !Decidable(g.needs, outcomes, s)
        decreases pending, progressed
      {
        progressed := Pass();
      }
    }

    method Pass() returns (progressed: bool)
      requires Valid() && Free()
      modifies this
      ensures Valid() && Free() && pending <= old(pending) && control == old(control)
      ensures |pending| * 2 + |running| <= old(|pending| * 2 + |running|)
      ensures progressed ==> pending < old(pending)
      ensures !progressed ==> forall s | s in pending :: !Decidable(g.needs, outcomes, s)
    {
      ghost var before, blocked: set<Id> := outcomes, {};
      progressed := false;
      for i := 0 to |ids|
        invariant Valid() && Free() && pending <= old(pending) && control == old(control)
        invariant |pending| * 2 + |running| <= old(|pending| * 2 + |running|)
        invariant progressed ==> pending < old(pending)
        invariant !progressed ==> outcomes == before
        invariant !progressed ==> pending * Elements(ids[..i]) <= blocked
        invariant forall s | s in blocked :: !Decidable(g.needs, before, s)
      {
        PrefixGrows(ids, i);
        if ids[i] in pending {
          if Decidable(g.needs, outcomes, ids[i]) {
            var settled := DecideOne(ids[i]);
            progressed := progressed || settled;
          } else if !progressed {
            blocked := blocked + {ids[i]};
          }
        }
      }
      assert ids == ids[..|ids|];
    }

    /** `collect`: every step still running delivers, in any order. */
    method Collect()
      requires Valid()
      modifies this
      ensures Valid() && running == {} && pending == old(pending)
      ensures old(history) <= history && Busy(history, |old(history)|)
      ensures old(Dirty(View())) ==> Dirty(View())
      ensures old(running) == {} ==> View() == old(View())
      ensures (old(draining) ==> draining) && (!old(control).NoControl? ==> !control.NoControl?)
      ensures forall x | x in old(outcomes) :: x in outcomes && outcomes[x] == old(outcomes[x])
    {
      while running != {}
        invariant Valid() && pending == old(pending) && old(history) <= history
        invariant Busy(history, |old(history)|)
        invariant forall x | x in old(outcomes) :: x in outcomes && outcomes[x] == old(outcomes[x])
        invariant old(Dirty(View())) ==> Dirty(View())
        invariant old(running) == {} ==> View() == old(View())
        invariant (old(draining) ==> draining) && (!old(control).NoControl? ==> !control.NoControl?)
        decreases running
      {
        var s :| s in running;
        BusyMore(history, |old(history)|);
        Receive(s);
      }
    }

    // ----- the wind-down ------------------------------------------------------------------------

    /** What the wind-down records for a step it does not run: the teardown's own reason, or,
        after a failure, the reason the join table gives. */
    ghost predicate TornDown(outcomes: map<Id, Outcome>, s: Id, reason: Reason, cancelled: bool) {
      && s in g.info && Decidable(g.needs, outcomes, s) && s in outcomes
      && match Joined(g, outcomes, s, true) {
        case Some(Skip(why)) =>
          outcomes[s] == SkippedOutcome(if !cancelled && why != RunFailed then why else reason)
        case _ => false
      }
    }

    lemma TornDownStays(before: map<Id, Outcome>, after: map<Id, Outcome>, s: Id, reason: Reason, cancelled: bool)
      requires TornDown(before, s, reason, cancelled)
      requires forall x | x in before :: x in after && after[x] == before[x]
      ensures TornDown(after, s, reason, cancelled)
    {
      OutcomesGrow(g.needs, before, after, s);
    }

    lemma TornDownNow(before: map<Id, Outcome>, s: Id, why: Reason, reason: Reason, cancelled: bool)
      requires s in g.info && s !in before && Decidable(g.needs, before, s)
      requires Joined(g, before, s, true) == Some(Skip(why))
      ensures TornDown(before[s := SkippedOutcome(if !cancelled && why != RunFailed then why else reason)],
                       s, reason, cancelled)
    {
      var after := before[s := SkippedOutcome(if !cancelled && why != RunFailed then why else reason)];
      OutcomesGrow(g.needs, before, after, s);
    }

    /** Every step of `from` that was decided without running is torn down. */
    ghost predicate AllTornDown(from: set<Id>, reason: Reason, cancelled: bool)
      reads this
    {
      forall s | s in from && s !in pending && s in g.info && g.info[s].join != Always ::
        TornDown(outcomes, s, reason, cancelled)
    }

    /** The steps that can be decided now, in document order. */
    method Ready() returns (ready: seq<Id>)
      ensures Distinct(ids) ==> Distinct(ready)
      ensures forall s :: s in ready <==> s in ids && s in pending && Decidable(g.needs, outcomes, s)
    {
      ready := [];
      for i := 0 to |ids|
        invariant forall s :: s in ready <==> s in ids[..i] && s in pending && Decidable(g.needs, outcomes, s)
        invariant Distinct(ids) ==> Distinct(ready)
      {
        PrefixGrows(ids, i);
        assert ids[..i + 1] == ids[..i] + [ids[i]];
        if ids[i] in pending && Decidable(g.needs, outcomes, ids[i]) {
          ready := ready + [ids[i]];
        }
      }
      assert ids[..|ids|] == ids;
    }

    /** What tears the list down: a stop, or a failure in a fail-fast list. */
    ghost predicate Tearing(reason: Reason, cancelled: bool)
      reads this
    {
      && Draining(View())
      && if cancelled then reason == StoppedRun && !control.NoControl? else reason == RunFailed
    }

    method SkipPending(s: Id, reason: Reason)
      requires Valid() && Free() && Draining(View()) && CanSettle(g, View(), s, SkippedOutcome(reason), None)
      modifies this
      ensures Valid() && Free() && Draining(View()) && pending == old(pending) - {s} && old(history) <= history
      ensures (old(draining) ==> draining) && (!old(control).NoControl? ==> !control.NoControl?)
      ensures running == old(running) && launched == old(launched)
      ensures outcomes == old(outcomes)[s := SkippedOutcome(reason)]
    {
      SettlePending(s, SkippedOutcome(reason), None);
    }

    /** One ready step of the wind-down: kept for launching, or skipped. */
    method WindDownOne(s: Id, reason: Reason, cancelled: bool) returns (launch: bool)
      requires Valid() && Tearing(reason, cancelled) && running == {} && s in pending && Decidable(g.needs, outcomes, s)
      modifies this
      ensures Valid() && Tearing(reason, cancelled) && running == old(running) && launched == old(launched)
      ensures launch <==> g.info[s].join == Always
      ensures launch ==> View() == old(View())
      ensures old(history) <= history
      ensures !launch ==> pending == old(pending) - {s} && TornDown(outcomes, s, reason, cancelled)
      ensures forall x | x in old(outcomes) :: x in outcomes && outcomes[x] == old(outcomes[x])
    {
      PendingFacts(s);
      DecidableJoins(g, outcomes, s, true);
      var decision := Joined(g, outcomes, s, true).value;
      if decision.Run? {
        return true;
      }
      var explained := !cancelled && decision.reason != RunFailed;
      TornDownNow(outcomes, s, decision.reason, reason, cancelled);
      SkipPending(s, if explained then decision.reason else reason);
      return false;
    }

    /** One cleanup step: its `when:` still counts. */
    method CleanUp(s: Id)
      requires Valid() && Free() && Draining(View()) && s in pending && Decidable(g.needs, outcomes, s)
      requires g.info[s].join == Always
      modifies this
      ensures Valid() && Free() && Draining(View()) && pending == old(pending) - {s} && old(history) <= history
      ensures (old(draining) ==> draining) && (!old(control).NoControl? ==> !control.NoControl?)
      ensures forall x | x in old(outcomes) :: x in outcomes && outcomes[x] == old(outcomes[x])
    {
      PendingFacts(s);
      DecidableJoins(g, outcomes, s, true);
      if g.info[s].hasWhen {
        var v: Verdict := *;
        if v.DoesNotHold? {
          SettlePending(s, SkippedOutcome(WhenFalse), Some(v));
          return;
        }
        if v.Broken? {
          SettlePending(s, WhenFailed(g.info[s], v.error), Some(v));
          return;
        }
        LaunchStep(s, Some(Holds));
      } else {
        LaunchStep(s, None);
      }
    }

    /** One round of the wind-down, up to its launches: skip what cannot run, keep the rest. */
    method SkipReady(ready: seq<Id>, reason: Reason, cancelled: bool) returns (launch: seq<Id>)
      requires Valid() && Tearing(reason, cancelled) && running == {} && Distinct(ready)
      requires forall s | s in ready :: s in pending && Decidable(g.needs, outcomes, s)
      modifies this
      ensures Valid() && Tearing(reason, cancelled) && running == old(running)
      ensures pending <= old(pending) && Distinct(launch) && old(history) <= history
      ensures forall s | s in launch :: s in pending && Decidable(g.needs, outcomes, s) && g.info[s].join == Always
      ensures forall s | s in old(pending) && s !in pending :: TornDown(outcomes, s, reason, cancelled)
      ensures forall x | x in old(outcomes) :: x in outcomes && outcomes[x] == old(outcomes[x])
      ensures forall s | s in ready :: s in launch || s !in pending
    {
      launch := [];
      for i := 0 to |ready|
        invariant Valid() && Tearing(reason, cancelled) && running == old(running)
        invariant pending <= old(pending) && Distinct(launch) && old(history) <= history
        invariant forall j | i <= j < |ready| :: ready[j] in pending && Decidable(g.needs, outcomes, ready[j])
        invariant forall s | s in launch ::
          s in ready[..i] && s in pending && Decidable(g.needs, outcomes, s) && s in g.info && g.info[s].join == Always
        invariant forall s | s in old(pending) && s !in pending :: TornDown(outcomes, s, reason, cancelled)
        invariant forall x | x in old(outcomes) :: x in outcomes && outcomes[x] == old(outcomes[x])
        invariant forall j | 0 <= j < i :: ready[j] in launch || ready[j] !in pending
      {
        ghost var before := outcomes;
        var run := WindDownOne(ready[i], reason, cancelled);
        forall s | TornDown(before, s, reason, cancelled) ensures TornDown(outcomes, s, reason, cancelled) {
          TornDownStays(before, outcomes, s, reason, cancelled);
        }
        forall s | Decidable(g.needs, before, s) ensures Decidable(g.needs, outcomes, s) {
          OutcomesGrow(g.needs, before, outcomes, s);
        }
        if run {
          launch := launch + [ready[i]];
        }
      }
    }

    method LaunchAll(launch: seq<Id>)
      requires Valid() && Free() && Draining(View()) && Distinct(launch)
      requires forall s | s in launch :: s in pending && Decidable(g.needs, outcomes, s) && g.info[s].join == Always
      modifies this
      ensures Valid() && Draining(View()) && pending == old(pending) - Elements(launch) && old(history) <= history
      ensures (old(draining) ==> draining) && (!old(control).NoControl? ==> !control.NoControl?)
      ensures forall x | x in old(outcomes) :: x in outcomes && outcomes[x] == old(outcomes[x])
    {
      for i := 0 to |launch|
        invariant Valid() && Free() && Draining(View()) && pending == old(pending) - Elements(launch[..i])
        invariant old(history) <= history
        invariant forall j | i <= j < |launch| ::
          launch[j] in pending && Decidable(g.needs, outcomes, launch[j]) && g.info[launch[j]].join == Always
        invariant (old(draining) ==> draining) && (!old(control).NoControl? ==> !control.NoControl?)
        invariant forall x | x in old(outcomes) :: x in outcomes && outcomes[x] == old(outcomes[x])
      {
        ghost var before := outcomes;
        CleanUp(launch[i]);
        PrefixGrows(launch, i);
        forall s | Decidable(g.needs, before, s) ensures Decidable(g.needs, outcomes, s) {
          OutcomesGrow(g.needs, before, outcomes, s);
        }
      }
      assert launch[..|launch|] == launch;
    }

    /** `wind_down`: the leftovers in dependency order; cleanup steps run, the rest is skipped.
        It ends with nothing pending, unless a cleanup step paused. */
    method WindDown(reason: Reason, cancelled: bool)
      requires Valid() && Distinct(ids) && running == {} && Tearing(reason, cancelled)
      modifies this
      ensures Valid() && running == {} && Tearing(reason, cancelled)
      ensures pending == {} || paused
      ensures AllTornDown(old(pending), reason, cancelled) && old(history) <= history
    {
      while pending != {}
        invariant Valid() && running == {} && Tearing(reason, cancelled) && pending <= old(pending)
        invariant AllTornDown(old(pending), reason, cancelled) && old(history) <= history
        decreases pending
      {
        if paused {
          break;
        }
        var ready := Ready();
        if ready == [] {
          break;
        }
        Round(ready, old(pending), reason, cancelled);
      }
      if pending != {} && !paused {
        Reached();
        NothingStuckIn();
      }
    }

    lemma NothingStuckIn()
      requires Valid() && running == {} && !paused
      requires forall s | s in pending :: !Decidable(g.needs, outcomes, s)
      ensures pending == {} && outcomes.Keys == g.needs.Keys
    {
      Reached();
      NothingStuck(g, View());
    }

    method Round(ready: seq<Id>, ghost from: set<Id>, reason: Reason, cancelled: bool)
      requires Valid() && Tearing(reason, cancelled) && running == {} && ready != [] && Distinct(ready)
      requires forall s | s in ready :: s in pending && Decidable(g.needs, outcomes, s)
      requires pending <= from && AllTornDown(from, reason, cancelled)
      modifies this
      ensures Valid() && Tearing(reason, cancelled) && running == {} && pending < old(pending)
      ensures AllTornDown(from, reason, cancelled) && old(history) <= history
    {
      ghost var first, open := outcomes, pending;
      var launch := SkipReady(ready, reason, cancelled);
      ghost var second, middle := outcomes, pending;
      LaunchAll(launch);
      Collect();
      assert ready[0] in ready;
      assert forall s | s in launch :: s in Elements(launch);
      forall s | s in from && s !in pending && s in g.info && g.info[s].join != Always
        ensures TornDown(outcomes, s, reason, cancelled)
      {
        if s !in open {
          TornDownStays(first, outcomes, s, reason, cancelled);
        } else {
          assert s !in middle;
          TornDownStays(second, outcomes, s, reason, cancelled);
        }
      }
    }

    // ----- the run ------------------------------------------------------------------------------

    /** `run_graph`: runs the list to its end and returns the signal it raises, if any.
        Unless something paused, every step has ended and every unconditional cleanup step was
        launched; `history` is the run as an interleaving of the model, and `torn` its state when the
        last outcome of the loop had settled and the wind-down, if there is one, began. */
    method RunGraph() returns (signal: Control, ghost torn: nat)
      requires Valid() && View() == Initial(g) && Distinct(ids)
      modifies this
      ensures Valid() && signal == control && running == {}
      ensures !signal.RunPaused? ==> outcomes.Keys == g.needs.Keys && pending == {}
      ensures !signal.RunPaused? ==> forall s | s in outcomes :: Terminal(outcomes[s].status)
      ensures !signal.RunPaused? ==>
        forall s | s in g.info && g.info[s].join == Always && !g.info[s].hasWhen :: s in launched
      ensures draining <==> exists s | s in outcomes :: StopsOthers(outcomes[s], g.keepGoing)
      ensures signal.RunPaused? <==> exists s | s in outcomes :: outcomes[s].control.RunPaused?
      ensures signal.NoControl? <==> forall s | s in outcomes :: outcomes[s].control.NoControl?
      ensures OnlyCleanupLaunched()
      ensures WoundDown(torn)
    {
      DecideAndLaunch();
      MainLoop();
      torn := TearDown();
      if !control.RunPaused? {
        Ended();
      }
      Flags();
      return control, torn;
    }

    /** From the moment the run was capped, or an outcome stopped the others or signalled, only cleanup
        steps were launched. */
    ghost predicate OnlyCleanupLaunched()
      reads this
    {
      forall i, j | 0 <= i <= j < |history| && MayOnlyCleanUp(g, history[i]) :: OnlyCleanups(g, history[i], history[j])
    }

    lemma Flags()
      requires Valid()
      ensures draining <==> exists s | s in outcomes :: StopsOthers(outcomes[s], g.keepGoing)
      ensures control.RunPaused? <==> exists s | s in outcomes :: outcomes[s].control.RunPaused?
      ensures control.NoControl? <==> forall s | s in outcomes :: outcomes[s].control.NoControl?
      ensures OnlyCleanupLaunched()
    {
      ReachableTold(g, history);
      forall i, j | 0 <= i <= j < |history| && MayOnlyCleanUp(g, history[i])
        ensures OnlyCleanups(g, history[i], history[j])
      {
        LaterOnlyCleanup(g, history, i, j);
      }
    }

    /** What became of the steps left over at moment `torn`: after a stop, which is the first moment with
        a signal and nothing running, each that is no cleanup is skipped as stopped; after a failure in a
        fail-fast list for the reason its needs give, or as `run_failed`; else nothing happened any more. */
    ghost predicate WoundDown(torn: nat)
      reads this
    {
      && torn < |history| && history[torn].running == {}
      && match history[torn].control {
        case RunStopped =>
          && AllTornDown(history[torn].pending, StoppedRun, true)
          && forall n | 0 <= n < torn :: history[n].control.NoControl? || history[n].running != {}
        case RunPaused => View() == history[torn]
        case NoControl =>
          if history[torn].draining && failFast then AllTornDown(history[torn].pending, RunFailed, false)
          else View() == history[torn]
      }
    }

    /** What follows the loop: the last outcomes, and the wind-down a signal or fail-fast calls for. */
    method TearDown() returns (ghost torn: nat)
      requires Valid() && Distinct(ids) && LoopEnded() && JustSignalled()
      modifies this
      ensures Valid() && running == {}
      ensures control.RunPaused? || pending == {}
      ensures WoundDown(torn)
    {
      ghost var before := |history| - 1;
      Collect();
      PauseSignals();
      torn := |history| - 1;
      FirstSignalled(before, torn);
      if control.RunStopped? {
        WindDown(StoppedRun, true);
        PauseSignals();
      } else if control.NoControl? && draining && failFast {
        WindDown(RunFailed, false);
        PauseSignals();
      } else if control.NoControl? {
        NothingStuckIn();
      }
    }

    lemma PauseSignals()
      requires Valid()
      ensures paused ==> control.RunPaused?
    {
      Reached();
    }

    /** Signalled, failing fast, or out of steps. */
    ghost predicate LoopEnded()
      reads this
    {
      || !control.NoControl?
      || (draining && failFast)
      || (running == {} && forall s | s in pending :: !Decidable(g.needs, outcomes, s))
    }

    /** The signal, if there is one, came with the last outcome. */
    ghost predicate JustSignalled()
      reads this
    {
      1 < |history| && !control.NoControl? ==> history[|history| - 2].control.NoControl?
    }

    /** Nothing was signalled before `from`, and up to `torn` something ran. */
    lemma FirstSignalled(from: nat, torn: nat)
      requires Valid() && from <= torn < |history|
      requires 0 < from && !history[from].control.NoControl? ==> history[from - 1].control.NoControl?
      requires forall n | from <= n < torn :: history[n].running != {}
      ensures forall n | 0 <= n < torn :: history[n].control.NoControl? || history[n].running != {}
    {
      forall n | 0 <= n < from ensures history[n].control.NoControl? {
        if 0 < from {
          Unsignalled(g, history, n, if history[from].control.NoControl? then from else from - 1);
        }
      }
    }

    lemma Ended()
      requires Valid() && running == {} && pending == {} && !control.RunPaused?
      ensures outcomes.Keys == g.needs.Keys
      ensures forall s | s in outcomes :: Terminal(outcomes[s].status)
      ensures forall s | s in g.info && g.info[s].join == Always && !g.info[s].hasWhen :: s in launched
    {
      Reached();
    }

    /** A run that nothing disturbed ended as evaluating the steps one after the other would. */
    lemma UndisturbedIsSequential(exec: Executor, holds: Condition, order: seq<Id>)
      requires Valid() && !Dirty(View()) && outcomes.Keys == g.needs.Keys
      requires Topological(g.needs, order) && Follows(g, exec, holds, View())
      ensures outcomes == Sequential(g, exec, holds, order)
    {
      ConcurrentIsSequential(g, exec, holds, history, order);
    }

    /** Settle what arrives and decide what follows from it, until nothing runs or the list is
        torn down. */
    method MainLoop()
      requires Valid() && control.NoControl? && forall s | s in pending :: !Decidable(g.needs, outcomes, s)
      modifies this
      ensures Valid() && LoopEnded() && JustSignalled()
    {
      while running != {}
        invariant Valid() && control.NoControl?
        invariant forall s | s in pending :: !Decidable(g.needs, outcomes, s)
        decreases |pending| * 2 + |running|
      {
        Reached();
        var s :| s in running;
        Receive(s);
        if !control.NoControl? {
          return;
        }
        if draining && failFast && running != {} {
          return;
        }
        DecideAndLaunch();
      }
    }
  }
}
