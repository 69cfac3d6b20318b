/** Many processes writing one ledger file: lock, read, write a temporary file, replace, unlock,
    each its own step, with a crash possible anywhere. */
module LedgerProtocol {
  import opened Options
  import opened Ledger
  import opened LedgerHistory
  import opened LedgerSums

  type Pid = nat

  /** The three read-modify-writes of the ledger. */
  datatype Op = CommitTotal(run: RunId, cost: Option<int>, when: Moment) | Outcome(failed: bool) | ResetFailures

  function Apply(doc: Doc, op: Op): Doc {
    match op
    case CommitTotal(run, cost, when) => Applied(doc, run, cost, when)
    case Outcome(failed) => doc.(failures := if failed then doc.failures + 1 else 0)
    case ResetFailures => doc.(failures := 0)
  }

  /** Where a process is in one read-modify-write. */
  datatype Proc =
    | Idle
    | Waiting(op: Op)
    | Locked(op: Op)
    | HasRead(op: Op, data: Doc)
    | HasTemp(op: Op, data: Doc)
    | HasReplaced(op: Op)
    | Dead

  predicate Holding(p: Proc) {
    p.Locked? || p.HasRead? || p.HasTemp? || p.HasReplaced?
  }

  /** `log`: the writes in the order of their replaces; `returned`: those whose caller was told. */
  datatype State = State(file: Doc, lock: Option<Pid>, procs: map<Pid, Proc>, log: seq<Op>, returned: seq<Op>)

  /** `Fail`: the read or the write raises before the replace; the lock is released all the same. */
  datatype Move = Ask(op: Op) | Lock | Read | WriteTemp | Replace | Unlock | Fail | Crash

  predicate Enabled(s: State, pid: Pid, m: Move) {
    && pid in s.procs
    && match m {
      case Ask(_) => s.procs[pid].Idle?
      case Lock => s.procs[pid].Waiting? && s.lock.None?
      case Read => s.procs[pid].Locked?
      case WriteTemp => s.procs[pid].HasRead?
      case Replace => s.procs[pid].HasTemp?
      case Unlock => s.procs[pid].HasReplaced?
      case Fail => s.procs[pid].Locked? || s.procs[pid].HasRead? || s.procs[pid].HasTemp?
      case Crash => true
    }
  }

  function Do(s: State, pid: Pid, m: Move): State
    requires Enabled(s, pid, m)
  {
    var p := s.procs[pid];
    match m
    case Ask(op) => s.(procs := s.procs[pid := Waiting(op)])
    case Lock => s.(procs := s.procs[pid := Locked(p.op)], lock := Some(pid))
    case Read => s.(procs := s.procs[pid := HasRead(p.op, s.file)])
    case WriteTemp => s.(procs := s.procs[pid := HasTemp(p.op, Apply(p.data, p.op))])
    case Replace => s.(procs := s.procs[pid := HasReplaced(p.op)], file := p.data, log := s.log + [p.op])
    case Unlock => s.(procs := s.procs[pid := Idle], lock := None, returned := s.returned + [p.op])
    case Fail => s.(procs := s.procs[pid := Idle], lock := None)
    case Crash => s.(procs := s.procs[pid := Dead], lock := if s.lock == Some(pid) then None else s.lock)
  }

  predicate Initial(s: State) {
    s.file == EMPTY && s.lock.None? && s.log == [] && s.returned == [] && forall p | p in s.procs :: s.procs[p].Idle?
  }

  /** An interleaving of any number of processes. */
  ghost predicate Execution(states: seq<State>) {
    && states != [] && Initial(states[0])
    && forall i | 0 <= i < |states| - 1 :: Next(states[i], states[i + 1])
  }

  ghost predicate Next(s: State, s': State) {
    exists pid, m :: Enabled(s, pid, m) && s' == Do(s, pid, m)
  }

  /** The writes applied one after the other. */
  function Fold(log: seq<Op>): Doc {
    if log == [] then EMPTY else Apply(Fold(log[..|log| - 1]), log[|log| - 1])
  }

  /** Who holds the lock, what it read and what it is about to write. */
  ghost predicate Inv(s: State) {
    s.file == Fold(s.log) && Locking(s) && Reading(s) && Telling(s)
  }

  predicate Locking(s: State) {
    forall p | p in s.procs :: Holding(s.procs[p]) <==> s.lock == Some(p)
  }

  predicate Reading(s: State) {
    && (forall p | p in s.procs && s.procs[p].HasRead? :: s.procs[p].data == s.file)
    && (forall p | p in s.procs && s.procs[p].HasTemp? :: s.procs[p].data == Apply(s.file, s.procs[p].op))
  }

  ghost predicate Telling(s: State) {
    && multiset(s.returned) <= multiset(s.log)
    && forall p | p in s.procs && s.procs[p].HasReplaced? ::
         multiset(s.returned) + multiset{s.procs[p].op} <= multiset(s.log)
  }

  lemma LockingKept(s: State, pid: Pid, m: Move)
    requires Locking(s) && Enabled(s, pid, m)
    ensures Locking(Do(s, pid, m))
  {}

  lemma ReadingKept(s: State, pid: Pid, m: Move)
    requires Locking(s) && Reading(s) && Enabled(s, pid, m)
    ensures Reading(Do(s, pid, m))
  {
    if m.Replace? {
      assert forall p | p in s.procs && p != pid :: !Holding(s.procs[p]);
    }
  }

  /** Locked out of the replace and the unlock, no other process has one of them to tell. */
  lemma Alone(s: State, pid: Pid)
    requires Locking(s) && pid in s.procs && Holding(s.procs[pid])
    ensures forall p | p in s.procs && p != pid :: !s.procs[p].HasReplaced?
  {
    assert forall p | p in s.procs && p != pid :: !Holding(s.procs[p]);
  }

  lemma TellingReplaced(s: State, pid: Pid)
    requires Locking(s) && Telling(s) && Enabled(s, pid, Replace)
    ensures Telling(Do(s, pid, Replace))
  {
    Alone(s, pid);
    var after := Do(s, pid, Replace);
    assert after.log == s.log + [s.procs[pid].op];
    Appended(s.log, s.procs[pid].op);
    assert forall p | p in after.procs && after.procs[p].HasReplaced? :: p == pid;
  }

  lemma TellingUnlocked(s: State, pid: Pid)
    requires Locking(s) && Telling(s) && Enabled(s, pid, Unlock)
    ensures Telling(Do(s, pid, Unlock))
  {
    Alone(s, pid);
    var after := Do(s, pid, Unlock);
    assert after.returned == s.returned + [s.procs[pid].op];
    Appended(s.returned, s.procs[pid].op);
    assert forall p | p in after.procs :: !after.procs[p].HasReplaced?;
  }

  lemma TellingSame(s: State, pid: Pid, m: Move)
    requires Telling(s) && Enabled(s, pid, m) && !m.Replace? && !m.Unlock?
    ensures Telling(Do(s, pid, m))
  {
    var after := Do(s, pid, m);
    forall p | p in after.procs && after.procs[p].HasReplaced?
      ensures p in s.procs && s.procs[p] == after.procs[p]
    {}
  }

  lemma TellingKept(s: State, pid: Pid, m: Move)
    requires Locking(s) && Telling(s) && Enabled(s, pid, m)
    ensures Telling(Do(s, pid, m))
  {
    if m.Replace? {
      TellingReplaced(s, pid);
    } else if m.Unlock? {
      TellingUnlocked(s, pid);
    } else {
      TellingSame(s, pid, m);
    }
  }

  lemma Appended(ops: seq<Op>, op: Op)
    ensures multiset(ops + [op]) == multiset(ops) + multiset{op}
  {}

  lemma FoldSnoc(log: seq<Op>, op: Op)
    ensures Fold(log + [op]) == Apply(Fold(log), op)
  {
    assert (log + [op])[..|log|] == log;
  }

  lemma DoKeeps(s: State, pid: Pid, m: Move)
    requires Inv(s) && Enabled(s, pid, m)
    ensures Inv(Do(s, pid, m))
  {
    LockingKept(s, pid, m);
    ReadingKept(s, pid, m);
    TellingKept(s, pid, m);
    if m.Replace? {
      FoldSnoc(s.log, s.procs[pid].op);
    }
  }

  lemma {:induction false} ReachableInv(states: seq<State>)
    requires Execution(states)
    ensures Inv(states[|states| - 1])
    decreases |states|
  {
    if |states| > 1 {
      var before := states[..|states| - 1];
      forall i | 0 <= i < |before| - 1 ensures Next(before[i], before[i + 1]) {
        assert Next(states[i], states[i + 1]);
      }
      ReachableInv(before);
      assert Next(states[|states| - 2], states[|states| - 1]);
      var pid, m :| Enabled(states[|states| - 2], pid, m) && states[|states| - 1] == Do(states[|states| - 2], pid, m);
      DoKeeps(states[|states| - 2], pid, m);
    }
  }

  /** In every reachable state, crashes included: the file is the fold of the completed writes in
      the order of their replaces, and every write whose caller was told is among them. */
  lemma NoLostUpdate(states: seq<State>)
    requires Execution(states)
    ensures var s := states[|states| - 1];
            s.file == Fold(s.log) && multiset(s.returned) <= multiset(s.log)
  {
    ReachableInv(states);
  }

  /** The log only grows: a completed write is never undone, whoever crashes later. */
  lemma {:induction false} LogGrows(states: seq<State>, i: nat)
    requires Execution(states) && i < |states|
    ensures states[i].log <= states[|states| - 1].log
    decreases |states| - i
  {
    if i + 1 < |states| {
      assert Next(states[i], states[i + 1]);
      LogGrows(states, i + 1);
    }
  }

  /** The lock excludes: at most one process is between locking and unlocking. */
  lemma LockExcludes(states: seq<State>, p: Pid, q: Pid)
    requires Execution(states)
    requires var s := states[|states| - 1];
             p in s.procs && q in s.procs && Holding(s.procs[p]) && Holding(s.procs[q])
    ensures p == q
  {
    ReachableInv(states);
  }

  /** A write that raises leaves the document and the log as they were, and the lock free again. */
  lemma FailureLosesOnlyItself(states: seq<State>, pid: Pid)
    requires Execution(states) && Enabled(states[|states| - 1], pid, Fail)
    ensures var s := states[|states| - 1];
            var s' := Do(s, pid, Fail);
            s'.file == s.file == Fold(s'.log) && s'.log == s.log && s'.returned == s.returned && s'.lock == None
            && forall q | q in s'.procs :: !Holding(s'.procs[q])
  {
    ReachableInv(states);
  }

  /** A crash before the replace leaves the document as it was, and the lock free again. */
  lemma CrashLosesOnlyItself(states: seq<State>, pid: Pid)
    requires Execution(states)
    requires var s := states[|states| - 1]; pid in s.procs && Holding(s.procs[pid])
    ensures var s := states[|states| - 1];
            var s' := Do(s, pid, Crash);
            s'.file == s.file && s'.lock == None && s'.log == s.log
            && forall q | q in s'.procs && s'.procs[q].Waiting? :: Enabled(s', q, Lock)
  {
    ReachableInv(states);
  }

  // ----- what the file adds up to -------------------------------------------------------------

  /** The commits among the writes. */
  function CommitsOf(log: seq<Op>): seq<Commit> {
    if log == [] then []
    else
      var rest := CommitsOf(log[..|log| - 1]);
      match log[|log| - 1]
      case CommitTotal(run, cost, when) => rest + [Commit(run, cost, when)]
      case _ => rest
  }

  lemma FailuresApart(doc: Doc, run: RunId, cost: Option<int>, when: Moment)
    ensures Applied(doc, run, cost, when).(failures := 0) == Applied(doc.(failures := 0), run, cost, when)
  {
    PruneApart(Booked(doc, run, cost, when), when);
  }

  lemma PruneApart(doc: Doc, now: Moment)
    ensures Pruned(doc, now).(failures := 0) == Pruned(doc.(failures := 0), now)
  {
    var a, b := Pruned(doc, now), Pruned(doc.(failures := 0), now);
    assert a.days == b.days;
    assert a.months == b.months;
    assert a.runs == b.runs;
  }

  /** The failure counter and the money never touch each other. */
  lemma {:induction false} FoldIsKept(log: seq<Op>)
    ensures Fold(log).(failures := 0) == Kept(CommitsOf(log))
    decreases |log|
  {
    if log != [] {
      var before, op := log[..|log| - 1], log[|log| - 1];
      FoldIsKept(before);
      if op.CommitTotal? {
        var commits, c := CommitsOf(before), Commit(op.run, op.cost, op.when);
        assert (commits + [c])[..|commits|] == commits;
        FailuresApart(Fold(before), op.run, op.cost, op.when);
      }
    }
  }

  /** In every reachable state, while nothing was pruned: the day buckets, the month buckets and
      the last committed totals of the runs add up to the same amount. */
  lemma FileConserves(states: seq<State>, dlo: int, dhi: int, mlo: int, mhi: int, ids: seq<RunId>)
    requires Execution(states)
    requires var commits := CommitsOf(states[|states| - 1].log);
             && (forall n | 0 <= n < |commits| :: PrunesNothing(commits, n))
             && (forall c | c in commits :: dlo <= c.when.day < dhi && mlo <= c.when.month < mhi && c.run in ids)
    requires forall i, j | 0 <= i < j < |ids| :: ids[i] != ids[j]
    ensures var file := states[|states| - 1].file;
            SumBuckets(file.days, dlo, dhi) == SumBuckets(file.months, mlo, mhi) == SumRuns(file, ids)
  {
    var s := states[|states| - 1];
    ReachableInv(states);
    FoldIsKept(s.log);
    Conservation(CommitsOf(s.log), dlo, dhi, mlo, mhi, ids);
    SumRunsSame(s.file, s.file.(failures := 0), ids);
  }

  lemma {:induction false} SumRunsSame(a: Doc, b: Doc, ids: seq<RunId>)
    requires a.runs == b.runs
    ensures SumRuns(a, ids) == SumRuns(b, ids)
    decreases |ids|
  {
    if ids != [] {
      SumRunsSame(a, b, ids[..|ids| - 1]);
    }
  }

  /** In every reachable state, whatever order the moments came in: committing again what a run
      committed last, after a resume, a retry or a crash before the caller was told, books nothing in
      the file if and only if the run is still kept or its total is 0. */
  lemma RepeatInFile(states: seq<State>, j: nat, c: Commit)
    requires Execution(states) && Repeats(CommitsOf(states[|states| - 1].log), j, c)
    ensures var s := states[|states| - 1];
            BooksNothing(s.file, Apply(s.file, CommitTotal(c.run, c.cost, c.when)), c.when)
            <==> StillKept(CommitsOf(s.log), j) || Amount(c.cost) == 0
  {
    var s := states[|states| - 1];
    ReachableInv(states);
    FoldIsKept(s.log);
    RepeatedCommit(CommitsOf(s.log), j, c);
    Unfold(CommitsOf(s.log), c);
    FailuresApart(s.file, c.run, c.cost, c.when);
    PruneApart(s.file, c.when);
  }

  /** The failed outcomes since the last success or reset; commits do not count. */
  function Streak(log: seq<Op>): nat {
    if log == [] then 0
    else
      var before := Streak(log[..|log| - 1]);
      match log[|log| - 1]
      case Outcome(true) => before + 1
      case Outcome(false) => 0
      case ResetFailures => 0
      case CommitTotal(_, _, _) => before
  }

  lemma {:induction false} FoldStreak(log: seq<Op>)
    ensures Fold(log).failures == Streak(log)
    decreases |log|
  {
    if log != [] {
      FoldStreak(log[..|log| - 1]);
    }
  }

  /** In every reachable state the file counts exactly those. */
  lemma FileCountsFailures(states: seq<State>)
    requires Execution(states)
    ensures var s := states[|states| - 1]; s.file.failures == Streak(s.log)
  {
    ReachableInv(states);
    FoldStreak(states[|states| - 1].log);
  }

  /** In every reachable state whose commits booked nothing twice, when neither they nor the next one
      land in a bucket already pruned: the next commit returns the sum of the increases of its day and of
      those of its month, over all commits on file, if and only if it books nothing twice either. */
  lemma NextCommitInFile(states: seq<State>, c: Commit)
    requires Execution(states)
    requires var commits := CommitsOf(states[|states| - 1].log);
             Steady(commits + [c]) && forall i | 0 <= i < |commits| :: !BooksTwice(commits, i)
    ensures var s := states[|states| - 1];
            var commits := CommitsOf(s.log);
            var told, n := StateOf(Apply(s.file, CommitTotal(c.run, c.cost, c.when)), c.when), |commits|;
            (told.day == DaySum(commits + [c], n + 1, c.when.day)
             && told.month == MonthSum(commits + [c], n + 1, c.when.month))
            <==> !BooksTwice(commits + [c], n)
  {
    var s := states[|states| - 1];
    var commits := CommitsOf(s.log);
    ReachableInv(states);
    FoldIsKept(s.log);
    Unfold(commits, c);
    FailuresApart(s.file, c.run, c.cost, c.when);
    NextHasSums(commits, c);
  }
}
