/** What holds in every reachable state of a list, and what every undisturbed run ends with. */
module SchedulerRuns {
  import opened Options
  import opened Graphs
  import opened Ancestry
  import opened JoinTable
  import opened SchedulerModel

  /** An interleaving, from the start. */
  ghost predicate Execution(g: Graph, states: seq<State>) {
    && states != [] && states[0] == Initial(g)
    && forall i | 0 <= i < |states| - 1 :: Next(g, states[i], states[i + 1])
  }

  lemma {:induction false} ReachableInv(g: Graph, states: seq<State>)
    requires ValidGraph(g) && Execution(g, states)
    ensures Inv(g, states[|states| - 1])
    decreases |states|
  {
    if |states| == 1 {
      InitialInv(g);
    } else {
      var before := states[..|states| - 1];
      forall i | 0 <= i < |before| - 1 ensures Next(g, before[i], before[i + 1]) {
        assert Next(g, states[i], states[i + 1]);
      }
      ReachableInv(g, before);
      StepKeeps(g, states[|states| - 2], states[|states| - 1]);
    }
  }

  // ----- visibility ---------------------------------------------------------------------------

  lemma {:induction false} PathSettled(g: Graph, st: State, p: seq<Id>)
    requires Inv(g, st) && 2 <= |p| && IsPath(g.needs, p) && p[0] !in st.pending
    ensures p[|p| - 1] in st.outcomes && Terminal(st.outcomes[p[|p| - 1]].status)
    decreases |p|
  {
    assert p[1] in g.needs[p[0]] && p[1] in st.outcomes;
    if |p| > 2 {
      PathTail(g.needs, p, 1);
      PathSettled(g, st, p[1..]);
    }
  }

  /** Everything a launched or settled step depends on, however indirectly, has ended. */
  lemma AncestorsSettled(g: Graph, states: seq<State>, s: Id, a: Id)
    requires ValidGraph(g) && Execution(g, states)
    requires var st := states[|states| - 1]; s in st.running + st.outcomes.Keys
    requires a in Closure(g.needs, s)
    ensures var st := states[|states| - 1];
            a in st.outcomes && Terminal(st.outcomes[a].status)
  {
    ReachableInv(g, states);
    var p :| PathBetween(g.needs, p, s, a);
    PathSettled(g, states[|states| - 1], p);
  }

  /** A step of a list inside composites: the list's state, the step, and whether the list is an
      `include:` body (which sees nothing of what encloses it). Innermost first; each next level's
      step is the composite whose body is the level before it. */
  datatype Level = Level(g: Graph, st: State, step: Id, closed: bool)

  /** `allowed_for`: the step's ancestors, and what the enclosing composite may see. */
  ghost function AllowedFor(levels: seq<Level>): set<Id> {
    if levels == [] then {}
    else Closure(levels[0].g.needs, levels[0].step) + if levels[0].closed then {} else AllowedFor(levels[1..])
  }

  /** The name is settled in one of the lists the body may look into. */
  predicate Available(levels: seq<Level>, a: Id) {
    levels != [] &&
    ((a in levels[0].st.outcomes && Terminal(levels[0].st.outcomes[a].status))
     || (!levels[0].closed && Available(levels[1..], a)))
  }

  /** What the validator lets a step name is there when the step runs, at every nesting depth. */
  lemma {:induction false} AllowedIsAvailable(levels: seq<Level>, a: Id)
    requires forall l | l in levels :: ValidGraph(l.g) && Inv(l.g, l.st) && l.step in l.st.running
    requires a in AllowedFor(levels)
    ensures Available(levels, a)
    decreases |levels|
  {
    var l := levels[0];
    if a in Closure(l.g.needs, l.step) {
      assert l in levels;
      var p :| PathBetween(l.g.needs, p, l.step, a);
      PathSettled(l.g, l.st, p);
    } else {
      AllowedIsAvailable(levels[1..], a);
    }
  }

  // ----- progress -----------------------------------------------------------------------------

  /** With nothing running and nothing paused, some pending step can always be decided. */
  lemma NothingStuck(g: Graph, st: State)
    requires ValidGraph(g) && Inv(g, st) && st.running == {} && !st.paused
    requires forall s | s in st.pending :: !Decidable(g.needs, st.outcomes, s)
    ensures st.pending == {} && st.outcomes.Keys == g.needs.Keys
  {
    if st.pending != {} {
      var s := MinimalStep(g.needs, st.pending);
      assert Decidable(g.needs, st.outcomes, s);
    }
  }

  /** Once draining, capped or signalled, the list stays so, and launches nothing but cleanup. */
  lemma DirtyIsSticky(g: Graph, states: seq<State>, i: nat, j: nat)
    requires ValidGraph(g) && Execution(g, states)
    requires var trace := states[|states| - 1].trace; i < j < |trace| && trace[i].dirty
    ensures var trace := states[|states| - 1].trace;
            trace[j].dirty && (trace[j].Launch? ==> trace[j].id in g.info && g.info[trace[j].id].join == Always)
  {
    ReachableInv(g, states);
    var trace := states[|states| - 1].trace;
    assert trace[j] in trace;
  }

  // ----- why a step did not run ---------------------------------------------------------------

  /** The outcome is what the join table, asked with this flag, or then `when:` gives. */
  predicate TableExplains(g: Graph, outcomes: map<Id, Outcome>, s: Id, draining: bool)
    requires s in g.info && Decidable(g.needs, outcomes, s) && s in outcomes
  {
    match Joined(g, outcomes, s, draining)
    case None => false
    case Some(Skip(reason)) => outcomes[s] == SkippedOutcome(reason)
    case Some(Run) =>
      g.info[s].hasWhen
      && (outcomes[s] == SkippedOutcome(WhenFalse) || outcomes[s] == WhenFailed(g.info[s], outcomes[s].output))
  }

  /** A settled step ran, or what it ended with follows from its needs, a cap or a signal. */
  predicate ExplainedAt(g: Graph, st: State, s: Id) {
    && s in g.info && Decidable(g.needs, st.outcomes, s) && s in st.outcomes
    && (|| s in st.launched
        || TableExplains(g, st.outcomes, s, false)
        || (Draining(st) && TableExplains(g, st.outcomes, s, true))
        || CapSettles(g, st, s, st.outcomes[s])
        || (!st.control.NoControl? && g.info[s].join != Always && st.outcomes[s] == SkippedOutcome(StoppedRun)))
  }

  ghost predicate Explained(g: Graph, st: State) {
    forall s | s in st.outcomes :: ExplainedAt(g, st, s)
  }

  /** Nothing that was settled, launched, capped, draining or signalled is taken back. */
  predicate Grows(st: State, next: State) {
    && (forall x | x in st.outcomes :: x in next.outcomes && next.outcomes[x] == st.outcomes[x])
    && st.launched <= next.launched && (st.capped ==> next.capped)
    && (Draining(st) ==> Draining(next)) && (!st.control.NoControl? ==> !next.control.NoControl?)
  }

  lemma AllStay(g: Graph, st: State, next: State)
    requires Explained(g, st) && Grows(st, next)
    ensures forall x | x in st.outcomes :: ExplainedAt(g, next, x)
  {
    forall x | x in st.outcomes ensures ExplainedAt(g, next, x) {
      ExplainedStays(g, st, next, x);
    }
  }

  lemma ExplainedStays(g: Graph, st: State, next: State, s: Id)
    requires ExplainedAt(g, st, s) && Grows(st, next)
    ensures ExplainedAt(g, next, s)
  {
    OutcomesGrow(g.needs, st.outcomes, next.outcomes, s);
  }

  lemma ExplainedSettled(g: Graph, st: State, s: Id, o: Outcome, v: Option<Verdict>)
    requires CanSettle(g, st, s, o, v) && s !in st.outcomes
    ensures ExplainedAt(g, Settled(g, st, s, o, v), s) && Grows(st, Settled(g, st, s, o, v))
  {
    var next := Settled(g, st, s, o, v);
    OutcomesGrow(g.needs, st.outcomes, next.outcomes, s);
    assert Joined(g, next.outcomes, s, Draining(st)) == Joined(g, st.outcomes, s, Draining(st));
    assert next.outcomes[s] == o && next.capped == st.capped && (Draining(st) ==> Draining(next));
    if TableSettles(g, st, s, o, v) {
      assert TableExplains(g, next.outcomes, s, Draining(st));
    } else if CapSettles(g, st, s, o) {
      assert CapSettles(g, next, s, o);
    }
  }

  lemma ExplainedReceived(g: Graph, st: State, s: Id, o: Outcome)
    requires ValidGraph(g) && Inv(g, st) && s in st.running
    ensures ExplainedAt(g, Received(g, st, s, o), s) && Grows(st, Received(g, st, s, o))
  {
    OutcomesGrow(g.needs, st.outcomes, Received(g, st, s, o).outcomes, s);
  }

  lemma OneMoreExplained(g: Graph, st: State, next: State, s: Id)
    requires Explained(g, st) && Grows(st, next) && ExplainedAt(g, next, s)
    requires next.outcomes.Keys == st.outcomes.Keys + {s}
    ensures Explained(g, next)
  {
    AllStay(g, st, next);
  }

  lemma SettledExplains(g: Graph, st: State, s: Id, o: Outcome, v: Option<Verdict>)
    requires Placed(g, st) && Explained(g, st) && CanSettle(g, st, s, o, v)
    ensures Explained(g, Settled(g, st, s, o, v))
  {
    ExplainedSettled(g, st, s, o, v);
    OneMoreExplained(g, st, Settled(g, st, s, o, v), s);
  }

  lemma LaunchedExplains(g: Graph, st: State, s: Id, v: Option<Verdict>)
    requires Explained(g, st)
    ensures Explained(g, Launched(st, s, v)) && Explained(g, st.(capped := true))
  {
    AllStay(g, st, Launched(st, s, v));
    AllStay(g, st, st.(capped := true));
  }

  lemma ReceivedExplains(g: Graph, st: State, s: Id, o: Outcome)
    requires ValidGraph(g) && Inv(g, st) && Explained(g, st) && s in st.running
    ensures Explained(g, Received(g, st, s, o))
  {
    ExplainedReceived(g, st, s, o);
    OneMoreExplained(g, st, Received(g, st, s, o), s);
  }

  lemma StepExplains(g: Graph, st: State, next: State)
    requires ValidGraph(g) && Inv(g, st) && Explained(g, st) && Next(g, st, next)
    ensures Explained(g, next)
  {
    if s, o, v :| CanSettle(g, st, s, o, v) && next == Settled(g, st, s, o, v) {
      SettledExplains(g, st, s, o, v);
    } else if s, v :| CanLaunch(g, st, s, v) && next == Launched(st, s, v) {
      LaunchedExplains(g, st, s, v);
    } else if s, o :| s in st.running && Delivered(o) && next == Received(g, st, s, o) {
      ReceivedExplains(g, st, s, o);
    } else {
      LaunchedExplains(g, st, "", None);
    }
  }

  /** In every reachable state each step that did not run has an outcome its needs, a cap or a
      signal account for. */
  lemma {:induction false} ReachableExplained(g: Graph, states: seq<State>)
    requires ValidGraph(g) && Execution(g, states)
    ensures Explained(g, states[|states| - 1])
    decreases |states|
  {
    if |states| > 1 {
      var before := states[..|states| - 1];
      forall i | 0 <= i < |before| - 1 ensures Next(g, before[i], before[i + 1]) {
        assert Next(g, states[i], states[i + 1]);
      }
      ReachableExplained(g, before);
      ReachableInv(g, before);
      StepExplains(g, states[|states| - 2], states[|states| - 1]);
    }
  }

  /** So `upstream_failed` is never recorded of a step none of whose needs failed. */
  lemma UpstreamFailedIsTrue(g: Graph, states: seq<State>, s: Id)
    requires ValidGraph(g) && Execution(g, states)
    requires var st := states[|states| - 1];
             s in st.outcomes && s !in st.launched && st.outcomes[s] == SkippedOutcome(UpstreamFailed)
    ensures var st := states[|states| - 1];
            s in g.needs && exists d | d in g.needs[s] && d in st.outcomes ::
                              FailedLike(st.outcomes[d].status) && Classify(st.outcomes[d]) == Some(ClassFailed)
  {
    var st := states[|states| - 1];
    ReachableExplained(g, states);
    assert ExplainedAt(g, st, s);
    var os := NeedOutcomes(g.needs[s], st.outcomes);
    var o :| o in os && Classify(o) == Some(ClassFailed);
    var i :| 0 <= i < |os| && os[i] == o;
    assert g.needs[s][i] in g.needs[s];
  }

  // ----- the sequential meaning ---------------------------------------------------------------

  /** What a step does and what its `when:` says, from the outcomes it may see. */
  type Executor = (Id, map<Id, Outcome>) -> Outcome
  type Condition = (Id, map<Id, Outcome>) -> Verdict

  ghost function Visible(g: Graph, outcomes: map<Id, Outcome>, s: Id): map<Id, Outcome> {
    map a | a in Closure(g.needs, s) && a in outcomes :: outcomes[a]
  }

  /** One step evaluated on its own after everything it needs. */
  ghost function Evaluate(g: Graph, exec: Executor, holds: Condition, done: map<Id, Outcome>, s: Id): Option<Outcome> {
    if s !in g.info || !Decidable(g.needs, done, s) then None
    else match Joined(g, done, s, false)
      case None => None
      case Some(Skip(reason)) => Some(SkippedOutcome(reason))
      case Some(Run) =>
        var seen := Visible(g, done, s);
        if !g.info[s].hasWhen then Some(exec(s, seen))
        else match holds(s, seen)
          case Holds => Some(exec(s, seen))
          case DoesNotHold => Some(SkippedOutcome(WhenFalse))
          case Broken(e) => Some(WhenFailed(g.info[s], e))
  }

  /** The steps evaluated one after the other. */
  ghost function Sequential(g: Graph, exec: Executor, holds: Condition, order: seq<Id>): map<Id, Outcome> {
    if order == [] then map[]
    else
      var s, done := order[|order| - 1], Sequential(g, exec, holds, order[..|order| - 1]);
      match Evaluate(g, exec, holds, done, s)
      case None => done
      case Some(o) => done[s := o]
  }

  /** The environment answered for `s` as `exec` and `holds` do. */
  ghost predicate FollowsAt(g: Graph, exec: Executor, holds: Condition, st: State, s: Id) {
    && (s in st.launched && s in st.outcomes ==> st.outcomes[s] == exec(s, Visible(g, st.outcomes, s)))
    && (s in st.verdicts ==> st.verdicts[s] == holds(s, Visible(g, st.outcomes, s)))
  }

  ghost predicate Follows(g: Graph, exec: Executor, holds: Condition, st: State) {
    forall s | s in g.needs :: FollowsAt(g, exec, holds, st, s)
  }

  lemma ClosureInPrefix(needs: Needs, order: seq<Id>, n: nat)
    requires NeedsEarlier(needs, order) && n < |order|
    ensures Closure(needs, order[n]) <= Elements(order[..n])
  {
    forall a | a in Closure(needs, order[n]) ensures a in order[..n] {
      var p :| PathBetween(needs, p, order[n], a);
      PathDescends(needs, order, p);
      PositionOf(order, n);
    }
  }

  lemma {:induction false} PositionOf(order: seq<Id>, n: nat)
    requires Distinct(order) && n < |order|
    ensures Position(order, order[n]) == n
  {
    var i := Position(order, order[n]);
    assert order[i] == order[n];
  }

  /** The run settled `s` by itself, and as `exec` and `holds` say. */
  ghost predicate SettlesAlone(g: Graph, exec: Executor, holds: Condition, st: State, s: Id) {
    s in st.outcomes && DecidedBySelf(g, st, s) && FollowsAt(g, exec, holds, st, s)
  }

  /** On what it needs, evaluating a step alone gives the outcome the run recorded. */
  lemma SameEvaluation(g: Graph, exec: Executor, holds: Condition, st: State, done: map<Id, Outcome>, s: Id)
    requires SettlesAlone(g, exec, holds, st, s)
    requires forall a | a in done :: a in st.outcomes && done[a] == st.outcomes[a]
    requires Closure(g.needs, s) <= done.Keys && Decidable(g.needs, done, s)
    ensures Evaluate(g, exec, holds, done, s) == Some(st.outcomes[s])
  {
    OutcomesGrow(g.needs, done, st.outcomes, s);
    assert Joined(g, done, s, false) == Joined(g, st.outcomes, s, false);
    assert Visible(g, done, s) == Visible(g, st.outcomes, s);
  }

  ghost predicate AgreesWith(done: map<Id, Outcome>, st: State, prefix: seq<Id>) {
    done.Keys == Elements(prefix) && forall s | s in done :: s in st.outcomes && done[s] == st.outcomes[s]
  }

  lemma SequentialSnoc(g: Graph, exec: Executor, holds: Condition, prefix: seq<Id>, s: Id, o: Outcome)
    requires Evaluate(g, exec, holds, Sequential(g, exec, holds, prefix), s) == Some(o)
    ensures Sequential(g, exec, holds, prefix + [s]) == Sequential(g, exec, holds, prefix)[s := o]
  {
    var all := prefix + [s];
    assert all[..|all| - 1] == prefix && all[|all| - 1] == s;
  }

  lemma OneMoreAgrees(g: Graph, exec: Executor, holds: Condition, st: State, prefix: seq<Id>, s: Id)
    requires SettlesAlone(g, exec, holds, st, s)
    requires AgreesWith(Sequential(g, exec, holds, prefix), st, prefix)
    requires Closure(g.needs, s) <= Elements(prefix) && forall d | d in g.needs[s] :: d in Elements(prefix)
    ensures AgreesWith(Sequential(g, exec, holds, prefix + [s]), st, prefix + [s])
  {
    var done := Sequential(g, exec, holds, prefix);
    SameEvaluation(g, exec, holds, st, done, s);
    SequentialSnoc(g, exec, holds, prefix, s, st.outcomes[s]);
    assert Elements(prefix + [s]) == Elements(prefix) + {s};
  }

  lemma NextInOrder(needs: Needs, order: seq<Id>, n: nat)
    requires NeedsEarlier(needs, order) && n < |order|
    ensures order[n] in needs && order[..n + 1] == order[..n] + [order[n]]
    ensures forall d | d in needs[order[n]] :: d in Elements(order[..n])
  {}

  lemma NothingAgrees(g: Graph, exec: Executor, holds: Condition, st: State)
    ensures AgreesWith(Sequential(g, exec, holds, []), st, [])
  {
    assert Elements<Id>([]) == {};
  }

  /** Every step was settled by itself, and as `exec` and `holds` say. */
  ghost predicate AllAlone(g: Graph, exec: Executor, holds: Condition, st: State) {
    forall s | s in g.needs :: SettlesAlone(g, exec, holds, st, s)
  }

  lemma PrefixStep(g: Graph, exec: Executor, holds: Condition, st: State, order: seq<Id>, n: nat)
    requires n < |order| && NeedsEarlier(g.needs, order) && SettlesAlone(g, exec, holds, st, order[n])
    requires AgreesWith(Sequential(g, exec, holds, order[..n]), st, order[..n])
    ensures AgreesWith(Sequential(g, exec, holds, order[..n + 1]), st, order[..n + 1])
  {
    ClosureInPrefix(g.needs, order, n);
    NextInOrder(g.needs, order, n);
    OneMoreAgrees(g, exec, holds, st, order[..n], order[n]);
  }

  lemma {:induction false} PrefixAgrees(g: Graph, exec: Executor, holds: Condition, st: State, order: seq<Id>, n: nat)
    requires AllAlone(g, exec, holds, st) && NeedsEarlier(g.needs, order) && n <= |order|
    ensures AgreesWith(Sequential(g, exec, holds, order[..n]), st, order[..n])
    decreases n
  {
    if n == 0 {
      assert order[..0] == [];
      NothingAgrees(g, exec, holds, st);
    } else {
      PrefixAgrees(g, exec, holds, st, order, n - 1);
      assert SettlesAlone(g, exec, holds, st, order[n - 1]);
      PrefixStep(g, exec, holds, st, order, n - 1);
    }
  }

  lemma CleanSettlesAlone(g: Graph, exec: Executor, holds: Condition, st: State)
    requires Inv(g, st) && !Dirty(st) && st.outcomes.Keys == g.needs.Keys && Follows(g, exec, holds, st)
    ensures AllAlone(g, exec, holds, st)
  {
    forall s | s in g.needs ensures SettlesAlone(g, exec, holds, st, s) {
      assert s in st.outcomes && s !in st.pending;
      assert FollowsAt(g, exec, holds, st, s);
    }
  }

  /** However it was interleaved, a run that was never disturbed ends with the outcomes of the
      sequential evaluation in any topological order. */
  lemma ConcurrentIsSequential(g: Graph, exec: Executor, holds: Condition, states: seq<State>, order: seq<Id>)
    requires ValidGraph(g) && Execution(g, states) && Topological(g.needs, order)
    requires var st := states[|states| - 1];
             !Dirty(st) && st.outcomes.Keys == g.needs.Keys && Follows(g, exec, holds, st)
    ensures states[|states| - 1].outcomes == Sequential(g, exec, holds, order)
  {
    ReachableInv(g, states);
    var st := states[|states| - 1];
    CleanSettlesAlone(g, exec, holds, st);
    AllAgree(g, exec, holds, st, order);
  }

  lemma AllAgree(g: Graph, exec: Executor, holds: Condition, st: State, order: seq<Id>)
    requires AllAlone(g, exec, holds, st)
    requires Topological(g.needs, order) && st.outcomes.Keys == g.needs.Keys
    ensures st.outcomes == Sequential(g, exec, holds, order)
  {
    PrefixAgrees(g, exec, holds, st, order, |order|);
    assert order[..|order|] == order;
    SameOutcomes(Sequential(g, exec, holds, order), st, order);
  }

  lemma SameOutcomes(done: map<Id, Outcome>, st: State, order: seq<Id>)
    requires AgreesWith(done, st, order) && st.outcomes.Keys == Elements(order)
    ensures done == st.outcomes
  {}
}
