/** The scheduler of one sibling list as a transition system: what one settling, one launch and
    one delivery do to its state, and what every one of them keeps. */
module SchedulerModel {
  import opened Options
  import opened Graphs
  import opened JoinTable

  /** The list being run: its edges, its steps, and whether failures leave the rest running. */
  datatype Graph = Graph(needs: Needs, info: map<Id, Step>, keepGoing: bool)

  ghost predicate ValidGraph(g: Graph) {
    Closed(g.needs) && g.info.Keys == g.needs.Keys && Acyclic(g.needs)
  }

  /** A launch, or an outcome settling; `dirty` tells whether the list was draining, capped,
      cancelled or signalled by then. */
  datatype Event = Launch(id: Id, dirty: bool) | Settle(id: Id, dirty: bool)

  /** `capped`: the run-level cap tripped or a cancellation was requested. `launched`, `verdicts`
      and `trace` remember what happened. */
  datatype State = State(
    pending: set<Id>, running: set<Id>, outcomes: map<Id, Outcome>,
    draining: bool, control: Control, paused: bool, capped: bool,
    launched: set<Id>, verdicts: map<Id, Verdict>, trace: seq<Event>)

  predicate Dirty(st: State) {
    st.draining || st.capped || !st.control.NoControl?
  }

  /** What a launched step may deliver: never a live status, and a pause always as a signal. */
  predicate Delivered(o: Outcome) {
    (Terminal(o.status) || o.status.Paused?) && (o.status.Paused? ==> o.control.RunPaused?)
  }

  /** The outcomes of some steps, in order. */
  function NeedOutcomes(needs: seq<Id>, outcomes: map<Id, Outcome>): seq<Outcome>
    requires forall d | d in needs :: d in outcomes
  {
    seq(|needs|, i requires 0 <= i < |needs| => outcomes[needs[i]])
  }

  /** Every need of `s` has settled on a terminal outcome. */
  predicate Decidable(needs: Needs, outcomes: map<Id, Outcome>, s: Id) {
    s in needs && forall d | d in needs[s] :: d in outcomes && Terminal(outcomes[d].status)
  }

  function Joined(g: Graph, outcomes: map<Id, Outcome>, s: Id, draining: bool): Option<Decision>
    requires s in g.info && Decidable(g.needs, outcomes, s)
  {
    JoinDecision(g.info[s].join, NeedOutcomes(g.needs[s], outcomes), draining)
  }

  // ----- transitions --------------------------------------------------------------------------

  /** `settle`: the outcome is kept, and may set the list draining, pause it or signal. */
  function Recorded(g: Graph, st: State, s: Id, o: Outcome): State {
    var failed := FailedLike(o.status) && !o.tolerated && (o.vetoed || !g.keepGoing);
    var control := if !o.control.NoControl?
                      && (st.control.NoControl? || (o.control.RunPaused? && !st.control.RunPaused?))
                   then o.control else st.control;
    var next := st.(outcomes := st.outcomes[s := o], draining := st.draining || failed || o.status.Paused?,
                    paused := st.paused || o.status.Paused?, control := control);
    next.(trace := st.trace + [Settle(s, Dirty(next))])
  }

  function Noted(st: State, s: Id, v: Option<Verdict>): State {
    st.(pending := st.pending - {s}, verdicts := if v.Some? then st.verdicts[s := v.value] else st.verdicts)
  }

  function Settled(g: Graph, st: State, s: Id, o: Outcome, v: Option<Verdict>): State {
    Recorded(g, Noted(st, s, v), s, o)
  }

  function Launched(st: State, s: Id, v: Option<Verdict>): State {
    Noted(st, s, v).(running := st.running + {s}, launched := st.launched + {s},
                     trace := st.trace + [Launch(s, Dirty(st))])
  }

  function Received(g: Graph, st: State, s: Id, o: Outcome): State {
    Recorded(g, st.(running := st.running - {s}), s, o)
  }

  // ----- what may happen ----------------------------------------------------------------------

  /** What the resume cache may replay. */
  predicate Reusable(o: Outcome) {
    (o.status.Succeeded? || (o.status.Failed? && o.tolerated)) && o.control.NoControl?
  }

  /** The flag the join table is asked with. */
  predicate Draining(st: State) {
    st.draining || !st.control.NoControl?
  }

  /** The join table, and then `when:`, settle `s` with `o` instead of launching it. */
  ghost predicate TableSettles(g: Graph, st: State, s: Id, o: Outcome, v: Option<Verdict>)
    requires s in g.info && Decidable(g.needs, st.outcomes, s)
  {
    match Joined(g, st.outcomes, s, Draining(st))
    case None => false
    case Some(Skip(reason)) => v.None? && o == SkippedOutcome(reason)
    case Some(Run) =>
      g.info[s].hasWhen && match v {
        case Some(DoesNotHold) => o == SkippedOutcome(WhenFalse)
        case Some(Broken(e)) => o == WhenFailed(g.info[s], e)
        case _ => false
      }
  }

  /** After a cap or a cancellation: replayed when it can be, else skipped with that reason. */
  predicate CapSettles(g: Graph, st: State, s: Id, o: Outcome) {
    && st.capped && s in g.info && g.info[s].join != Always
    && (Reusable(o) || o == SkippedOutcome(BudgetExceeded) || o == SkippedOutcome(CancelRequested))
  }

  /** When a signal tore the list down: what is left over is skipped as stopped. */
  predicate StopSettles(g: Graph, st: State, s: Id, o: Outcome) {
    && !st.control.NoControl? && st.running == {} && s in g.info && g.info[s].join != Always
    && o == SkippedOutcome(StoppedRun)
  }

  /** A pending step that may be settled without being launched, and with what. */
  ghost predicate CanSettle(g: Graph, st: State, s: Id, o: Outcome, v: Option<Verdict>) {
    && s in st.pending && s in g.info && Decidable(g.needs, st.outcomes, s)
    && (TableSettles(g, st, s, o, v) || (v.None? && (CapSettles(g, st, s, o) || StopSettles(g, st, s, o))))
  }

  /** A pending step that may be launched: once the list is dirty, only a cleanup step. */
  predicate CanLaunch(g: Graph, st: State, s: Id, v: Option<Verdict>) {
    && s in st.pending && s in g.info && Decidable(g.needs, st.outcomes, s)
    && (Dirty(st) ==> g.info[s].join == Always)
    && Joined(g, st.outcomes, s, Dirty(st)) == Some(Run)
    && (if g.info[s].hasWhen then v == Some(Holds) else v == None)
  }

  /** One transition of the list. */
  ghost predicate Next(g: Graph, st: State, next: State) {
    || (exists s, o, v :: CanSettle(g, st, s, o, v) && next == Settled(g, st, s, o, v))
    || (exists s, v :: CanLaunch(g, st, s, v) && next == Launched(st, s, v))
    || (exists s, o :: s in st.running && Delivered(o) && next == Received(g, st, s, o))
    || next == st.(capped := true)
  }

  lemma SettlingIsNext(g: Graph, st: State, s: Id, o: Outcome, v: Option<Verdict>)
    requires CanSettle(g, st, s, o, v)
    ensures Next(g, st, Settled(g, st, s, o, v)) && Settled(g, st, s, o, v).running == st.running
  {}

  lemma LaunchIsNext(g: Graph, st: State, s: Id, v: Option<Verdict>)
    requires CanLaunch(g, st, s, v)
    ensures Next(g, st, Launched(st, s, v)) && st.running <= Launched(st, s, v).running
  {}

  lemma DeliveryIsNext(g: Graph, st: State, s: Id, o: Outcome)
    requires s in st.running && Delivered(o)
    ensures Next(g, st, Received(g, st, s, o))
  {}

  lemma ReceivedGrows(g: Graph, st: State, s: Id, o: Outcome)
    requires s !in st.outcomes
    ensures var next := Received(g, st, s, o);
            && next.running == st.running - {s} && next.pending == st.pending && next.capped == st.capped
            && (forall x | x in st.outcomes :: x in next.outcomes && next.outcomes[x] == st.outcomes[x])
            && (st.draining ==> next.draining) && (!st.control.NoControl? ==> !next.control.NoControl?)
  {}

  function Initial(g: Graph): State {
    State(g.needs.Keys, {}, map[], false, NoControl, false, false, {}, map[], [])
  }

  // ----- the invariant ------------------------------------------------------------------------

  /** Every step is pending, running or settled; only what is no longer pending was launched. */
  predicate Placed(g: Graph, st: State) {
    && st.pending + st.running + st.outcomes.Keys == g.needs.Keys
    && st.pending !! st.running && st.pending !! st.outcomes.Keys && st.running !! st.outcomes.Keys
    && st.running <= st.launched && st.launched !! st.pending && st.verdicts.Keys !! st.pending
  }

  /** Whatever was launched or settled had all its needs settled on terminal outcomes. */
  predicate NeedsFirst(g: Graph, st: State) {
    forall s | s in g.needs && s !in st.pending :: Decidable(g.needs, st.outcomes, s)
  }

  /** A pause is never forgotten, and it is the signal that bubbles. */
  predicate Flagged(st: State) {
    && (forall s | s in st.outcomes :: Delivered(st.outcomes[s]) && (st.outcomes[s].status.Paused? ==> st.paused))
    && (st.paused ==> st.draining && st.control.RunPaused?)
  }

  /** Cleanup steps settle only by running. */
  predicate CleanupRan(g: Graph, st: State) {
    forall s | s in st.outcomes && s in g.info && g.info[s].join == Always && !g.info[s].hasWhen :: s in st.launched
  }

  /** What the steps on their own, without any interference, decide for `s`. */
  ghost predicate DecidedBySelf(g: Graph, st: State, s: Id) {
    && s in g.info && Decidable(g.needs, st.outcomes, s)
    && match Joined(g, st.outcomes, s, false) {
      case None => false
      case Some(Skip(reason)) => s !in st.launched && s in st.outcomes && st.outcomes[s] == SkippedOutcome(reason)
      case Some(Run) =>
        if !g.info[s].hasWhen then s in st.launched
        else s in st.verdicts && match st.verdicts[s] {
          case Holds => s in st.launched
          case DoesNotHold => s !in st.launched && s in st.outcomes && st.outcomes[s] == SkippedOutcome(WhenFalse)
          case Broken(e) => s !in st.launched && s in st.outcomes && st.outcomes[s] == WhenFailed(g.info[s], e)
        }
    }
  }

  /** A clean list decided everything by itself. */
  ghost predicate Undisturbed(g: Graph, st: State) {
    !Dirty(st) ==> forall s | s in g.needs && s !in st.pending :: DecidedBySelf(g, st, s)
  }

  /** Once dirty, always dirty, and from then on only cleanup steps were launched. */
  ghost predicate Sticky(g: Graph, st: State) {
    && (forall i, j | 0 <= i < j < |st.trace| && st.trace[i].dirty :: st.trace[j].dirty)
    && (forall e | e in st.trace :: (e.dirty ==> Dirty(st)) && (e.Launch? ==> e.id in st.launched))
    && (forall e | e in st.trace && e.Launch? && e.dirty :: e.id in g.info && g.info[e.id].join == Always)
  }

  ghost predicate Inv(g: Graph, st: State) {
    Placed(g, st) && NeedsFirst(g, st) && Flagged(st) && CleanupRan(g, st) && Undisturbed(g, st) && Sticky(g, st)
  }

  lemma InitialInv(g: Graph)
    requires ValidGraph(g)
    ensures Inv(g, Initial(g))
  {}

  // ----- every transition keeps it ------------------------------------------------------------

  /** More outcomes do not change what was decided from the old ones. */
  lemma OutcomesGrow(needs: Needs, before: map<Id, Outcome>, after: map<Id, Outcome>, s: Id)
    requires Decidable(needs, before, s)
    requires forall x | x in before :: x in after && after[x] == before[x]
    ensures Decidable(needs, after, s) && NeedOutcomes(needs[s], after) == NeedOutcomes(needs[s], before)
  {}

  lemma StillDecided(g: Graph, st: State, next: State, s: Id)
    requires DecidedBySelf(g, st, s)
    requires forall x | x in st.outcomes :: x in next.outcomes && next.outcomes[x] == st.outcomes[x]
    requires s in next.launched <==> s in st.launched
    requires s in st.verdicts ==> s in next.verdicts && next.verdicts[s] == st.verdicts[s]
    ensures DecidedBySelf(g, next, s)
  {
    OutcomesGrow(g.needs, st.outcomes, next.outcomes, s);
  }

  lemma RecordedSticky(g: Graph, st: State, s: Id, o: Outcome)
    requires Sticky(g, st)
    ensures Sticky(g, Recorded(g, st, s, o))
  {
    var next := Recorded(g, st, s, o);
    assert Dirty(st) ==> Dirty(next);
    assert forall e :: e in next.trace <==> e in st.trace || e == Settle(s, Dirty(next));
  }

  lemma RecordedNeedsFirst(g: Graph, st: State, next: State, s: Id, o: Outcome)
    requires next.outcomes == st.outcomes[s := o] && s !in st.outcomes
    requires forall x | x in g.needs && x !in next.pending :: Decidable(g.needs, st.outcomes, x)
    ensures NeedsFirst(g, next)
  {
    forall x | x in g.needs && x !in next.pending ensures Decidable(g.needs, next.outcomes, x) {
      OutcomesGrow(g.needs, st.outcomes, next.outcomes, x);
    }
  }

  /** A step settled without running is terminal, signals nothing, and is no unconditional cleanup. */
  lemma SettledFacts(g: Graph, st: State, s: Id, o: Outcome, v: Option<Verdict>)
    requires CanSettle(g, st, s, o, v)
    ensures Delivered(o) && o.control.NoControl? && !(g.info[s].join == Always && !g.info[s].hasWhen)
  {}

  lemma SettledRest(g: Graph, st: State, s: Id, o: Outcome, v: Option<Verdict>)
    requires Placed(g, st) && NeedsFirst(g, st) && Flagged(st) && CleanupRan(g, st) && Sticky(g, st)
    requires s in st.pending && s in g.info && Decidable(g.needs, st.outcomes, s)
    requires Delivered(o) && !(g.info[s].join == Always && !g.info[s].hasWhen)
    ensures var next := Settled(g, st, s, o, v);
            Placed(g, next) && NeedsFirst(g, next) && Flagged(next) && CleanupRan(g, next) && Sticky(g, next)
  {
    var next := Settled(g, st, s, o, v);
    RecordedSticky(g, Noted(st, s, v), s, o);
    RecordedNeedsFirst(g, st, next, s, o);
  }

  lemma SettledKeeps(g: Graph, st: State, s: Id, o: Outcome, v: Option<Verdict>)
    requires ValidGraph(g) && Inv(g, st) && CanSettle(g, st, s, o, v)
    ensures Inv(g, Settled(g, st, s, o, v))
  {
    SettledFacts(g, st, s, o, v);
    SettledRest(g, st, s, o, v);
    SettledUndisturbed(g, st, s, o, v);
  }

  lemma SettledBySelf(g: Graph, st: State, s: Id, o: Outcome, v: Option<Verdict>)
    requires s !in st.launched && s !in st.outcomes && CanSettle(g, st, s, o, v) && !Dirty(st)
    ensures DecidedBySelf(g, Settled(g, st, s, o, v), s)
  {
    var next := Settled(g, st, s, o, v);
    OutcomesGrow(g.needs, st.outcomes, next.outcomes, s);
    assert Joined(g, next.outcomes, s, false) == Joined(g, st.outcomes, s, false);
  }

  lemma SettledUndisturbed(g: Graph, st: State, s: Id, o: Outcome, v: Option<Verdict>)
    requires Placed(g, st) && Undisturbed(g, st) && CanSettle(g, st, s, o, v)
    ensures Undisturbed(g, Settled(g, st, s, o, v))
  {
    var next := Settled(g, st, s, o, v);
    if !Dirty(next) {
      SettledBySelf(g, st, s, o, v);
      forall x | x in g.needs && x !in next.pending && x != s ensures DecidedBySelf(g, next, x) {
        StillDecided(g, st, next, x);
      }
    }
  }

  lemma LaunchedKeeps(g: Graph, st: State, s: Id, v: Option<Verdict>)
    requires ValidGraph(g) && Inv(g, st) && CanLaunch(g, st, s, v)
    ensures Inv(g, Launched(st, s, v))
  {
    var next := Launched(st, s, v);
    assert s in g.needs;
    assert forall e :: e in next.trace <==> e in st.trace || e == Launch(s, Dirty(st));
    LaunchedUndisturbed(g, st, s, v);
  }

  lemma LaunchedUndisturbed(g: Graph, st: State, s: Id, v: Option<Verdict>)
    requires Placed(g, st) && Undisturbed(g, st) && CanLaunch(g, st, s, v)
    ensures Undisturbed(g, Launched(st, s, v))
  {
    var next := Launched(st, s, v);
    if !Dirty(next) {
      forall x | x in g.needs && x !in next.pending && x != s ensures DecidedBySelf(g, next, x) {
        StillDecided(g, st, next, x);
      }
    }
  }

  lemma ReceivedKeeps(g: Graph, st: State, s: Id, o: Outcome)
    requires ValidGraph(g) && Inv(g, st) && s in st.running && Delivered(o)
    ensures Inv(g, Received(g, st, s, o))
  {
    var next := Received(g, st, s, o);
    RecordedSticky(g, st.(running := st.running - {s}), s, o);
    RecordedNeedsFirst(g, st, next, s, o);
    ReceivedUndisturbed(g, st, s, o);
  }

  lemma ReceivedUndisturbed(g: Graph, st: State, s: Id, o: Outcome)
    requires Placed(g, st) && Undisturbed(g, st) && s in st.running
    ensures Undisturbed(g, Received(g, st, s, o))
  {
    var next := Received(g, st, s, o);
    if !Dirty(next) {
      forall x | x in g.needs && x !in next.pending ensures DecidedBySelf(g, next, x) {
        StillDecided(g, st, next, x);
      }
    }
  }

  lemma StepKeeps(g: Graph, st: State, next: State)
    requires ValidGraph(g) && Inv(g, st) && Next(g, st, next)
    ensures Inv(g, next)
  {
    if s, o, v :| CanSettle(g, st, s, o, v) && next == Settled(g, st, s, o, v) {
      SettledKeeps(g, st, s, o, v);
    } else if s, v :| CanLaunch(g, st, s, v) && next == Launched(st, s, v) {
      LaunchedKeeps(g, st, s, v);
    } else if s, o :| s in st.running && Delivered(o) && next == Received(g, st, s, o) {
      ReceivedKeeps(g, st, s, o);
    }
  }
}
