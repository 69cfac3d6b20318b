/** What a step ends with, and when a step may start given what its needs ended with. */
module JoinTable {
  import opened Options
  import opened Graphs

  datatype Status = Pending | Running | Succeeded | Failed | Skipped | Interrupted | Paused | Rejected

  predicate Terminal(s: Status) {
    s.Succeeded? || s.Failed? || s.Skipped? || s.Interrupted? || s.Rejected?
  }

  predicate FailedLike(s: Status) {
    s.Failed? || s.Interrupted? || s.Rejected?
  }

  datatype Reason =
    UpstreamFailed | UpstreamSkipped | RunFailed | WhenFalse | BudgetExceeded | CancelRequested | StoppedRun | PausedRun

  /** The signal an outcome carries for the whole run. */
  datatype Control = NoControl | RunStopped | RunPaused

  /** A step's record and output: `vetoed` is a rejected gate's error type. */
  datatype Outcome = Outcome(
    status: Status, tolerated: bool, vetoed: bool, reason: Option<Reason>, control: Control, output: string)

  datatype Class = ClassSucceeded | ClassSkipped | ClassFailed

  /** `None` stands for the `ValueError` on an outcome that is not terminal. */
  function Classify(o: Outcome): Option<Class> {
    if o.status.Succeeded? || (o.status.Failed? && o.tolerated) then Some(ClassSucceeded)
    else if o.status.Skipped? then Some(ClassSkipped)
    else if FailedLike(o.status) then Some(ClassFailed)
    else None
  }

  datatype Decision = Run | Skip(reason: Reason)

  function JoinDecision(join: Join, needs: seq<Outcome>, draining: bool): Option<Decision> {
    if exists o | o in needs :: Classify(o) == None then None
    else if join == Always then Some(Run)
    else if exists o | o in needs :: Classify(o) == Some(ClassFailed) then Some(Skip(UpstreamFailed))
    else if needs != [] && forall o | o in needs :: Classify(o) == Some(ClassSkipped) then Some(Skip(UpstreamSkipped))
    else if join == All && exists o | o in needs :: Classify(o) == Some(ClassSkipped) then Some(Skip(UpstreamSkipped))
    else if draining then Some(Skip(RunFailed))
    else Some(Run)
  }

  predicate Ok(o: Outcome) {
    o.status.Succeeded? || (o.status.Failed? && o.tolerated)
  }

  /** The documented truth table, read by column: exactly when a step of each join runs. */
  lemma JoinRunsExactly(join: Join, needs: seq<Outcome>, draining: bool)
    ensures JoinDecision(join, needs, draining) == None <==> exists o | o in needs :: !Terminal(o.status)
    ensures (forall o | o in needs :: Terminal(o.status)) ==>
      (JoinDecision(join, needs, draining) == Some(Run) <==>
        match join
        case Always => true
        case All => !draining && forall o | o in needs :: Ok(o)
        case Any => !draining && (forall o | o in needs :: Ok(o) || o.status.Skipped?)
                    && (needs == [] || exists o | o in needs :: Ok(o)))
  {
    forall o | o in needs ensures Classify(o) == None <==> !Terminal(o.status) {}
    if forall o | o in needs :: Terminal(o.status) {
      forall o | o in needs
        ensures Classify(o) == Some(ClassSucceeded) <==> Ok(o)
        ensures Classify(o) == Some(ClassSkipped) <==> o.status.Skipped?
      {}
      if needs != [] {
        assert needs[0] in needs;
      }
    }
  }

  /** And for which reason it does not run, when its needs have all ended. */
  lemma JoinSkipsExactly(join: Join, needs: seq<Outcome>, draining: bool)
    requires forall o | o in needs :: Terminal(o.status)
    ensures var failed := exists o | o in needs :: !Ok(o) && !o.status.Skipped?;
            var allSkipped := needs != [] && forall o | o in needs :: o.status.Skipped?;
            var someSkipped := exists o | o in needs :: o.status.Skipped?;
            var d := JoinDecision(join, needs, draining);
            && (d == Some(Skip(UpstreamFailed)) <==> join != Always && failed)
            && (d == Some(Skip(UpstreamSkipped)) <==>
                  join != Always && !failed && (allSkipped || (join == All && someSkipped)))
            && (d == Some(Skip(RunFailed)) <==>
                  join != Always && draining && !failed && !allSkipped && !(join == All && someSkipped))
  {
    forall o | o in needs
      ensures Classify(o) == Some(ClassFailed) <==> !Ok(o) && !o.status.Skipped?
      ensures Classify(o) == Some(ClassSkipped) <==> o.status.Skipped?
      ensures Classify(o) != None
    {}
  }

  function SkippedOutcome(reason: Reason): Outcome {
    Outcome(Skipped, false, false, Some(reason), NoControl, "")
  }

  /** A `when:` that could not be evaluated: a failed step, tolerated when the step allows it. */
  function WhenFailed(step: Step, error: string): Outcome {
    Outcome(Failed, step.allowFailure, false, None, NoControl, error)
  }

  datatype Verdict = Holds | DoesNotHold | Broken(error: string)
}
