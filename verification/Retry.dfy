/** The attempt loop of one step: retries with doubling backoff, and what all attempts cost. */
module Retry {
  import opened Options

  // ----- what attempts spend --------------------------------------------------------------------

  datatype Usage = Usage(input: nat, cachedInput: nat, cacheWrite: nat, output: nat, reasoning: nat) {
    function Plus(u: Usage): Usage {
      Usage(input + u.input, cachedInput + u.cachedInput, cacheWrite + u.cacheWrite, output + u.output,
            reasoning + u.reasoning)
    }
  }

  const NO_USAGE := Usage(0, 0, 0, 0, 0)

  datatype Source = Unpriced | Provider | Table

  datatype Spent = Spent(usage: Usage, cost: Option<nat>, source: Source)

  const NOTHING := Spent(NO_USAGE, None, Unpriced)

  function MergeSource(previous: Source, new_: Source): Source {
    if previous == Unpriced then new_
    else if new_ == Unpriced then previous
    else if previous == Table || new_ == Table then Table
    else Provider
  }

  /** One attempt folded into the running totals. */
  function Add(total: Spent, s: Spent): Spent {
    if s.cost.None? then total.(usage := total.usage.Plus(s.usage))
    else Spent(total.usage.Plus(s.usage), Some(total.cost.GetOr(0) + s.cost.value), MergeSource(total.source, s.source))
  }

  function Total(carried: Spent, made: seq<Spent>): Spent {
    if made == [] then carried else Add(Total(carried, made[..|made| - 1]), made[|made| - 1])
  }

  /** The kinds of tokens a provider counts. */
  datatype Kind = Input | CachedInput | CacheWrite | Output | Reasoning

  function Count(u: Usage, kind: Kind): nat {
    match kind
    case Input => u.input
    case CachedInput => u.cachedInput
    case CacheWrite => u.cacheWrite
    case Output => u.output
    case Reasoning => u.reasoning
  }

  function Tokens(made: seq<Spent>, kind: Kind): nat {
    if made == [] then 0 else Count(made[0].usage, kind) + Tokens(made[1..], kind)
  }

  function Dollars(made: seq<Spent>): nat {
    if made == [] then 0 else made[0].cost.GetOr(0) + Dollars(made[1..])
  }

  lemma {:induction false} TokensSnoc(made: seq<Spent>, s: Spent, kind: Kind)
    ensures Tokens(made + [s], kind) == Tokens(made, kind) + Count(s.usage, kind)
    decreases |made|
  {
    if made == [] {
      assert [s][1..] == [];
    } else {
      assert (made + [s])[1..] == made[1..] + [s];
      TokensSnoc(made[1..], s, kind);
    }
  }

  lemma {:induction false} DollarsSnoc(made: seq<Spent>, s: Spent)
    ensures Dollars(made + [s]) == Dollars(made) + s.cost.GetOr(0)
    decreases |made|
  {
    if made == [] {
      assert [s][1..] == [];
    } else {
      assert (made + [s])[1..] == made[1..] + [s];
      DollarsSnoc(made[1..], s);
    }
  }

  /** The totals are exactly what was carried over and what every attempt used, of every kind of token;
      a cost is known as soon as one of them is. */
  lemma {:induction false} NothingIsLost(carried: Spent, made: seq<Spent>)
    ensures var t := Total(carried, made);
            && (forall k: Kind :: Count(t.usage, k) == Count(carried.usage, k) + Tokens(made, k))
            && t.cost.GetOr(0) == carried.cost.GetOr(0) + Dollars(made)
            && (t.cost.Some? <==> carried.cost.Some? || exists s | s in made :: s.cost.Some?)
    decreases |made|
  {
    if made != [] {
      var init, last := made[..|made| - 1], made[|made| - 1];
      NothingIsLost(carried, init);
      forall k: Kind ensures Tokens(made, k) == Tokens(init, k) + Count(last.usage, k) {
        assert made == init + [last];
        TokensSnoc(init, last, k);
      }
      DollarsSnoc(init, last);
      assert made == init + [last];
      assert forall s :: s in made <==> s in init || s == last;
    }
  }

  predicate Priced(s: Spent, source: Source) {
    s.cost.Some? && s.source == source
  }

  /** The total is an estimate exactly when some priced part is one, and unpriced only when no
      priced part names its source. */
  lemma {:induction false} SourceExactly(carried: Spent, made: seq<Spent>)
    requires carried.cost.None? ==> carried.source == Unpriced
    ensures var parts := [carried] + made;
            && (Total(carried, made).source == Table <==> exists s | s in parts :: Priced(s, Table))
            && (Total(carried, made).source == Unpriced <==>
                  forall s | s in parts :: !Priced(s, Table) && !Priced(s, Provider))
    decreases |made|
  {
    if made == [] {
      assert carried in [carried] + made;
    } else {
      var init, last := made[..|made| - 1], made[|made| - 1];
      SourceExactly(carried, init);
      assert [carried] + made == ([carried] + init) + [last];
      assert last in [carried] + made;
      assert forall s :: s in [carried] + made <==> s in [carried] + init || s == last;
    }
  }

  /** The record a resumed run starts from keeps the totals of the runs before. */
  function Carried(previous: Spent): Spent {
    if previous.cost.None? then previous.(source := Unpriced) else previous
  }

  function OverRuns(runs: seq<seq<Spent>>): Spent {
    if runs == [] then NOTHING
    else Total(Carried(OverRuns(runs[..|runs| - 1])), runs[|runs| - 1])
  }

  function Flatten(runs: seq<seq<Spent>>): seq<Spent> {
    if runs == [] then [] else Flatten(runs[..|runs| - 1]) + runs[|runs| - 1]
  }

  lemma {:induction false} TotalJoined(carried: Spent, a: seq<Spent>, b: seq<Spent>)
    ensures Total(Total(carried, a), b) == Total(carried, a + b)
    decreases |b|
  {
    if b == [] {
      assert a + b == a;
    } else {
      TotalJoined(carried, a, b[..|b| - 1]);
      assert (a + b)[..|a + b| - 1] == a + b[..|b| - 1];
    }
  }

  lemma {:induction false} UnpricedHasNoSource(carried: Spent, made: seq<Spent>)
    requires carried.cost.None? ==> carried.source == Unpriced
    ensures Total(carried, made).cost.None? ==> Total(carried, made).source == Unpriced
    decreases |made|
  {
    if made != [] {
      UnpricedHasNoSource(carried, made[..|made| - 1]);
    }
  }

  /** However often the run is interrupted and resumed, the totals are those of one long run. */
  lemma {:induction false} ResumeKeepsTotals(runs: seq<seq<Spent>>)
    ensures OverRuns(runs) == Total(NOTHING, Flatten(runs))
    decreases |runs|
  {
    if runs != [] {
      var init, last := runs[..|runs| - 1], runs[|runs| - 1];
      ResumeKeepsTotals(init);
      UnpricedHasNoSource(NOTHING, Flatten(init));
      TotalJoined(NOTHING, Flatten(init), last);
    }
  }

  // ----- the retry policy -----------------------------------------------------------------------

  datatype Error = Error(kind: string, transient: bool)

  const TIMEOUT := "timeout"

  datatype Policy = Policy(attempts: nat, delay: nat, retryAll: bool)

  function ShouldRetry(policy: Option<Policy>, done: nat, error: Option<Error>): bool {
    match policy
    case None => false
    case Some(p) =>
      error.Some? && done < p.attempts && (p.retryAll || (error.value.transient && error.value.kind != TIMEOUT))
  }

  function Pow2(n: nat): nat {
    if n == 0 then 1 else 2 * Pow2(n - 1)
  }

  function DelayFor(policy: Policy, retry: nat): nat {
    policy.delay * Pow2(if retry == 0 then 0 else retry - 1)
  }

  /** All the waiting before the first `k` retries. */
  function Waited(policy: Policy, k: nat): nat {
    if k == 0 then 0 else Waited(policy, k - 1) + DelayFor(policy, k)
  }

  /** Without a policy nothing is retried, and nothing is waited for. */
  function WaitedBy(policy: Option<Policy>, retries: nat): nat {
    if policy.Some? then Waited(policy.value, retries) else 0
  }

  lemma {:induction false} WaitedInAll(policy: Policy, k: nat)
    ensures Pow2(k) >= 1 && Waited(policy, k) == policy.delay * (Pow2(k) - 1)
    decreases k
  {
    if k > 0 {
      WaitedInAll(policy, k - 1);
    }
  }

  /** The most attempts one run of a step can make. */
  function MostAttempts(policy: Option<Policy>): nat {
    if policy.Some? && policy.value.attempts > 1 then policy.value.attempts else 1
  }

  // ----- the loop -------------------------------------------------------------------------------

  datatype Ending =
    | Succeeded
    | Failed(error: Option<Error>)  // the executor says so
    | TimedOut
    | Raised
    | Cancelled                     // from outside, while the attempt ran
    | Control                       // a stop or pause raised inside the executor

  /** What the world does around one attempt: a cancellation while it waits for its slot (or sleeps
      before it), a cap or cancel seen once it has one, the attempt, a cap or cancel seen after. */
  datatype Attempt = Attempt(cancelled: bool, gate: bool, spent: Spent, ending: Ending, gateAfter: bool)

  datatype Exit =
    | Skipped      // never started
    | Kept         // a retry was due but may not start: the failure it has stands
    | Settled      // the last attempt's outcome
    | Interrupted
    | Controlled

  function ErrorOf(ending: Ending): Option<Error> {
    match ending
    case Failed(error) => error
    case TimedOut => Some(Error(TIMEOUT, false))
    case Raised => Some(Error("engine", false))
    case _ => None
  }

  predicate IsFailure(ending: Ending) {
    ending.Failed? || ending.TimedOut? || ending.Raised?
  }

  /** After attempt `n` (from 1) of this run, another one is due. */
  predicate GoesOn(policy: Option<Policy>, n: nat, a: Attempt) {
    IsFailure(a.ending) && !a.gateAfter && ShouldRetry(policy, n, ErrorOf(a.ending))
  }

  /** When attempt `n` (from 1) is followed by another, told from how it ended and from the policy. */
  predicate Again(policy: Option<Policy>, n: nat, a: Attempt) {
    && policy.Some? && n < policy.value.attempts && !a.gateAfter
    && match a.ending {
      case Failed(Some(e)) => policy.value.retryAll || (e.transient && e.kind != "timeout")
      case TimedOut => policy.value.retryAll
      case Raised => policy.value.retryAll
      case _ => false
    }
  }

  lemma GoesOnExactly(policy: Option<Policy>, n: nat, a: Attempt)
    ensures GoesOn(policy, n, a) <==> Again(policy, n, a)
  {}

  /** Of the failures with an error, lasting ones and timeouts are retried only when the policy retries
      all, and then as all others are; a transient one is retried while attempts remain. */
  lemma RetriedByPolicy(policy: Policy, n: nat, a: Attempt, e: Error)
    requires ErrorOf(a.ending) == Some(e) && !a.gateAfter && n < policy.attempts
    ensures !e.transient || e.kind == TIMEOUT ==> (GoesOn(Some(policy), n, a) <==> policy.retryAll)
    ensures e.transient && e.kind != TIMEOUT ==> GoesOn(Some(policy), n, a)
    ensures a.ending.TimedOut? || a.ending.Raised? ==> !e.transient
  {}

  /** A step that joins `always` starts past a cap or a cancel. */
  predicate MayStart(always: bool, a: Attempt) {
    !a.cancelled && (always || !a.gate)
  }

  function SpentBy(world: seq<Attempt>, n: nat): seq<Spent>
    requires n <= |world|
  {
    seq(n, i requires 0 <= i < n => world[i].spent)
  }

  lemma SpentNext(carried: Spent, world: seq<Attempt>, n: nat)
    requires n < |world|
    ensures Total(carried, SpentBy(world, n + 1)) == Add(Total(carried, SpentBy(world, n)), world[n].spent)
  {
    assert SpentBy(world, n + 1)[..n] == SpentBy(world, n);
  }

  /** The first `n` attempts started and each asked for another. */
  predicate Continued(world: seq<Attempt>, policy: Option<Policy>, always: bool, n: nat)
    requires n <= |world|
  {
    forall i | 0 <= i < n :: MayStart(always, world[i]) && GoesOn(policy, i + 1, world[i])
  }

  lemma ContinuedNext(world: seq<Attempt>, policy: Option<Policy>, always: bool, n: nat)
    requires n < |world| && Continued(world, policy, always, n)
    requires MayStart(always, world[n]) && GoesOn(policy, n + 1, world[n])
    ensures Continued(world, policy, always, n + 1) && policy.Some? && n + 1 < MostAttempts(policy)
    ensures WaitedBy(policy, n + 1) == WaitedBy(policy, n) + DelayFor(policy.value, n + 1)
  {}

  /** Attempt `n` (from 0) was reached, but a cancellation or a gate kept it from starting. */
  predicate StoppedBefore(world: seq<Attempt>, policy: Option<Policy>, always: bool, n: nat, cancelled: bool) {
    && n < |world| && Continued(world, policy, always, n)
    && world[n].cancelled == cancelled && !MayStart(always, world[n])
  }

  /** How the run ends, from the attempts it made. */
  predicate Ends(world: seq<Attempt>, policy: Option<Policy>, always: bool, made: nat, exit: Exit)
    requires made <= |world|
  {
    match exit
    case Skipped => made == 0 && StoppedBefore(world, policy, always, 0, false)
    case Kept => made > 0 && StoppedBefore(world, policy, always, made, false)
    case Settled =>
      made > 0 && !GoesOn(policy, made, world[made - 1])
      && !world[made - 1].ending.Cancelled? && !world[made - 1].ending.Control?
    case Interrupted =>
      StoppedBefore(world, policy, always, made, true) || (made > 0 && world[made - 1].ending.Cancelled?)
    case Controlled => made > 0 && world[made - 1].ending.Control?
  }

  /** How a run ends that its last attempt ends. */
  function ExitAfter(ending: Ending): Exit {
    match ending
    case Control => Controlled
    case Cancelled => Interrupted
    case _ => Settled
  }

  class Record {
    var spent: Spent
    var attempts: nat

    constructor (spent: Spent, attempts: nat)
      ensures this.spent == spent && this.attempts == attempts
    {
      this.spent, this.attempts := spent, attempts;
    }
  }

  /** While an attempt runs the record holds its own spending; the totals are folded back in after
      it, also when it was cancelled, but not when it ended in a control. */
  method OneAttempt(record: Record, a: Attempt, total: Spent) returns (after: Spent)
    modifies record
    ensures record.attempts == old(record.attempts) + 1
    ensures after == Add(total, a.spent)
    ensures record.spent == if a.ending.Control? then a.spent else after
  {
    record.attempts := record.attempts + 1;
    record.spent := a.spent;
    after := Add(total, record.spent);
    if !a.ending.Control? {
      record.spent := after;
    }
  }

  /** What follows attempt `n` (from 1) of this run: an exit, or nothing when it is retried. */
  method After(policy: Option<Policy>, n: nat, a: Attempt) returns (over: Option<Exit>)
    ensures over.None? <==> GoesOn(policy, n, a)
    ensures over.None? <==> Again(policy, n, a)
    ensures a.ending.Control? <==> over == Some(Controlled)
    ensures a.ending.Cancelled? <==> over == Some(Interrupted)
    ensures over.Some? ==> over.value.Controlled? || over.value.Interrupted? || over.value.Settled?
  {
    if a.ending.Control? {
      return Some(Controlled);
    }
    if a.ending.Cancelled? {
      return Some(Interrupted);
    }
    if IsFailure(a.ending) && a.gateAfter {
      return Some(Settled);
    }
    if IsFailure(a.ending) && ShouldRetry(policy, n, ErrorOf(a.ending)) {
      return None;
    }
    return Some(Settled);
  }

  /** Runs one step to the end of its attempts, `world` answering for as many as the policy allows:
      every retry is one the policy allows, the record holds what was carried over and what every
      attempt spent, and the waiting doubles each time. An attempt that ends in a control leaves
      only its own spending on the record. */
  method RunLeaf(record: Record, policy: Option<Policy>, always: bool, world: seq<Attempt>)
    returns (exit: Exit, made: nat, retries: nat, slept: nat)
    requires MostAttempts(policy) <= |world|
    modifies record
    ensures made <= MostAttempts(policy) && record.attempts == old(record.attempts) + made
    ensures Ends(world, policy, always, made, exit)
    ensures made > 0 ==> Continued(world, policy, always, made - 1) && MayStart(always, world[made - 1])
    ensures exit == Controlled ==> made > 0 && record.spent == world[made - 1].spent
    ensures exit != Controlled && made > 0 ==> record.spent == Total(Carried(old(record.spent)), SpentBy(world, made))
    ensures made == 0 ==> record.spent == old(record.spent)
    ensures exit != Controlled && made > 0 && record.spent.cost.None? ==> record.spent.source == Unpriced
    ensures retries == if made > 0 && !GoesOn(policy, made, world[made - 1]) then made - 1 else made
    ensures slept == WaitedBy(policy, retries)
    ensures made - 1 <= retries <= made && (retries == made ==> made < |world|)
    ensures forall i | 0 <= i < made ::
              !world[i].cancelled && (always || !world[i].gate) && (i < retries <==> Again(policy, i + 1, world[i]))
    ensures retries == made ==> world[made].cancelled || (world[made].gate && !always)
    ensures exit == if retries < made then ExitAfter(world[made - 1].ending)
                    else if world[made].cancelled then Interrupted else if made == 0 then Skipped else Kept
  {
    made, retries, slept := 0, 0, 0;
    ghost var carried := Carried(record.spent);
    var total := Carried(record.spent);
    while true
      invariant made == 0 || made < MostAttempts(policy)
      invariant Continued(world, policy, always, made) && retries == made
      invariant record.attempts == old(record.attempts) + made
      invariant total == Total(carried, SpentBy(world, made))
      invariant total.cost.None? ==> total.source == Unpriced
      invariant record.spent == if made == 0 then old(record.spent) else total
      invariant slept == WaitedBy(policy, retries)
      decreases MostAttempts(policy) - made
    {
      var a := world[made];
      if a.cancelled {
        exit := Interrupted;
        break;
      }
      if !always && a.gate {
        exit := if made > 0 then Kept else Skipped;
        break;
      }
      SpentNext(carried, world, made);
      made := made + 1;
      total := OneAttempt(record, a, total);
      var over := After(policy, made, a);
      if over.Some? {
        exit := over.value;
        break;
      }
      ContinuedNext(world, policy, always, made - 1);
      retries := retries + 1;
      slept := slept + DelayFor(policy.value, retries);
    }
  }

  predicate UsedNothing(made: seq<Spent>) {
    forall s | s in made :: s.usage == NO_USAGE
  }

  lemma {:induction false} ZeroUsage(carried: Spent, made: seq<Spent>)
    ensures Total(carried, made).usage == NO_USAGE <==> carried.usage == NO_USAGE && UsedNothing(made)
    decreases |made|
  {
    if made != [] {
      var init, last := made[..|made| - 1], made[|made| - 1];
      ZeroUsage(carried, init);
      assert made == init + [last];
      assert forall s :: s in made <==> s in init || s == last;
    }
  }

  /** An attempt that ends in a control is recorded alone: the usage on the record is then the sum
      exactly when nothing was used before that attempt. */
  lemma ControlKeepsUsageExactly(carried: Spent, made: seq<Spent>)
    requires made != []
    ensures var last := made[|made| - 1];
            Total(carried, made).usage == last.usage <==>
            carried.usage == NO_USAGE && UsedNothing(made[..|made| - 1])
  {
    ZeroUsage(carried, made[..|made| - 1]);
  }

  /** The cost on the record is then the sum exactly when nothing was paid before that attempt, and,
      if its own cost is unknown, no earlier one was known. */
  lemma ControlKeepsCostExactly(carried: Spent, made: seq<Spent>)
    requires made != []
    ensures var last, earlier := made[|made| - 1], made[..|made| - 1];
            Total(carried, made).cost == last.cost <==>
            if last.cost.Some? then carried.cost.GetOr(0) == 0 && Dollars(earlier) == 0
            else carried.cost.None? && forall s | s in earlier :: s.cost.None?
  {
    NothingIsLost(carried, made[..|made| - 1]);
  }

  /** A first attempt that is retried and a second one that a control ends: the record has only what
      the second one used. */
  lemma ControlAfterRetry(world: seq<Attempt>, policy: Policy)
    requires policy.attempts == |world| == 3 && policy.retryAll
    requires MayStart(false, world[0]) && MayStart(false, world[1])
    requires world[0].ending == Raised && !world[0].gateAfter && world[1].ending == Control
    ensures MostAttempts(Some(policy)) <= |world| && Continued(world, Some(policy), false, 1)
    ensures Ends(world, Some(policy), false, 2, Controlled)
    ensures Total(NOTHING, SpentBy(world, 2)).usage.input == world[0].spent.usage.input + world[1].spent.usage.input
  {
    SpentNext(NOTHING, world, 0);
    SpentNext(NOTHING, world, 1);
  }

  /** Five tokens of the first attempt are gone. */
  lemma ControlExample()
    ensures var first := Spent(Usage(5, 0, 0, 0, 0), None, Unpriced);
            var retried := Attempt(false, false, first, Raised, false);
            var stopped := Attempt(false, false, NOTHING, Control, false);
            var world, policy := [retried, stopped, stopped], Some(Policy(3, 1, true));
            && MostAttempts(policy) <= |world| && Continued(world, policy, false, 1)
            && Ends(world, policy, false, 2, Controlled)
            && Total(NOTHING, SpentBy(world, 2)).usage.input == 5 && world[1].spent.usage.input == 0
  {
    var first := Spent(Usage(5, 0, 0, 0, 0), None, Unpriced);
    var retried := Attempt(false, false, first, Raised, false);
    var stopped := Attempt(false, false, NOTHING, Control, false);
    ControlAfterRetry([retried, stopped, stopped], Policy(3, 1, true));
  }
}
