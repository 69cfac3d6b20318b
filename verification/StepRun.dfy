/** `run_one`: one launched step, from its execution to the single outcome it delivers. */
module StepRun {
  import opened Options
  import opened Graphs
  import opened JoinTable
  import opened SchedulerModel

  /** How the executor ended: `reused` outcomes come from the resume cache and are not finalized. */
  datatype Execution =
    | Returned(outcome: Outcome, reused: bool)
    | Cancelled(pausedAlready: bool, why: Option<Reason>)
    | Signalled(control: Control)
    | Raised(error: string)

  /** How persisting and announcing the outcome ended. */
  datatype Finish = Finished | CancelledLate | NotPersisted(error: string)

  /** What an execution amounts to before it is finalized. */
  function Raw(run: Execution): Outcome {
    match run
    case Returned(o, _) => o
    case Cancelled(true, _) => Outcome(Paused, false, false, None, RunPaused, "")
    case Cancelled(false, why) => Outcome(Interrupted, false, false, why, NoControl, "")
    case Signalled(RunPaused) => Outcome(Paused, false, false, Some(PausedRun), RunPaused, "")
    case Signalled(control) => Outcome(Interrupted, false, false, Some(StoppedRun), control, "")
    case Raised(error) => Outcome(Failed, false, false, None, NoControl, error)
  }

  function Finalized(step: Step, o: Outcome): Outcome {
    if o.status.Failed? && step.allowFailure then o.(tolerated := true) else o
  }

  /** The executor keeps its side: it never returns a live status, nor a pause without its signal. */
  predicate Proper(run: Execution) {
    && (run.Returned? ==> Delivered(run.outcome))
    && (run.Signalled? ==> !run.control.NoControl?)
  }

  /** However the execution and its persisting end, exactly one outcome is sent, and it is one the
      scheduler may receive; a failure is tolerated exactly when the step allows it and the record
      could be kept. */
  method RunOne(step: Step, run: Execution, finish: Finish) returns (sent: seq<Outcome>, cancelled: bool)
    requires Proper(run)
    ensures |sent| == 1 && Delivered(sent[0])
    ensures cancelled <==> run.Cancelled? || finish.CancelledLate?
    ensures !run.Cancelled? && finish.NotPersisted? ==>
              && sent[0].status == Status.Failed && !sent[0].tolerated && !sent[0].vetoed
              && sent[0].control == match run {
                case Returned(o, _) => o.control
                case Signalled(control) => control
                case _ => NoControl
              }
    ensures run.Cancelled? || !finish.NotPersisted? ==>
              match run
              case Returned(o, reused) =>
                sent[0] == o.(tolerated := o.tolerated || (o.status.Failed? && step.allowFailure && !reused))
              case Cancelled(true, _) => sent[0].status == Status.Paused && sent[0].control == RunPaused
              case Cancelled(false, why) =>
                && sent[0].status == Status.Interrupted && sent[0].reason == why
                && sent[0].control == NoControl && !sent[0].tolerated
              case Signalled(control) =>
                && sent[0].status == (if control == RunPaused then Status.Paused else Status.Interrupted)
                && sent[0].reason == Some(if control == RunPaused then PausedRun else StoppedRun)
                && sent[0].control == control && !sent[0].tolerated
              case Raised(error) =>
                && sent[0].status == Status.Failed && sent[0].control == NoControl && sent[0].output == error
                && sent[0].tolerated == step.allowFailure && !sent[0].vetoed
  {
    sent := [];
    var outcome := Raw(run);
    if run.Cancelled? {
      sent := sent + [Finalized(step, outcome)];
      return sent, true;
    }
    if !(run.Returned? && run.reused) {
      outcome := Finalized(step, outcome);
    }
    match finish {
      case CancelledLate =>
        sent := sent + [outcome];
        return sent, true;
      case NotPersisted(error) =>
        outcome := outcome.(status := Failed, tolerated := false, vetoed := false, output := error);
      case Finished =>
    }
    sent := sent + [outcome];
    cancelled := false;
  }
}
