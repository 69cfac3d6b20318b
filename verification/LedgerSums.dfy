/** What a commit returns, as sums over the commits themselves. */
module LedgerSums {
  import opened Options
  import opened Ledger
  import opened LedgerHistory

  /** The total a run committed last, unknown counting as nothing. */
  function LastCost(log: seq<Commit>, run: RunId): int {
    if log == [] then 0
    else
      var c := log[|log| - 1];
      if c.run != run then LastCost(log[..|log| - 1], run)
      else match c.cost
        case None => 0
        case Some(total) => total
  }

  /** What commit `i` adds to what its run had committed before. */
  function Increase(log: seq<Commit>, i: nat): int
    requires i < |log|
  {
    LastCost(log[..i + 1], log[i].run) - LastCost(log[..i], log[i].run)
  }

  /** The increases of the first `n` commits that fall on a day, in a month. */
  function DaySum(log: seq<Commit>, n: nat, day: int): int
    requires n <= |log|
  {
    if n == 0 then 0 else DaySum(log, n - 1, day) + if log[n - 1].when.day == day then Increase(log, n - 1) else 0
  }

  function MonthSum(log: seq<Commit>, n: nat, month: int): int
    requires n <= |log|
  {
    if n == 0 then 0
    else MonthSum(log, n - 1, month) + if log[n - 1].when.month == month then Increase(log, n - 1) else 0
  }

  lemma {:induction false} LastCostIs(log: seq<Commit>, run: RunId)
    ensures Committed(Full(log), run) == LastCost(log, run)
    decreases |log|
  {
    if log != [] {
      LastCostIs(log[..|log| - 1], run);
    }
  }

  /** One more commit moves the buckets of its moment by its increase, and no other. */
  lemma FullMore(log: seq<Commit>, n: nat)
    requires n < |log|
    ensures Adds(Full(log[..n]).days, Full(log[..n + 1]).days, log[n].when.day, Increase(log, n))
    ensures Adds(Full(log[..n]).months, Full(log[..n + 1]).months, log[n].when.month, Increase(log, n))
  {
    PrefixSnoc(log, n);
    Unfold(log[..n], log[n]);
    LastCostIs(log[..n], log[n].run);
    LastCostIs(log[..n + 1], log[n].run);
    BookedTotals(Full(log[..n]), log[n]);
  }

  /** The buckets of the whole history are those sums. */
  lemma {:induction false} FullSums(log: seq<Commit>, n: nat, day: int, month: int)
    requires n <= |log|
    ensures Get(Full(log[..n]).days, day) == DaySum(log, n, day)
    ensures Get(Full(log[..n]).months, month) == MonthSum(log, n, month)
    decreases n
  {
    if n == 0 {
      assert log[..0] == [];
    } else {
      FullSums(log, n - 1, day, month);
      FullMore(log, n - 1);
    }
  }

  /** The day and month totals on file right after commit `i`. */
  predicate FileHasSums(log: seq<Commit>, i: nat)
    requires i < |log|
  {
    var file, when := Kept(log[..i + 1]), log[i].when;
    && (if when.day in file.days then file.days[when.day] else 0) == DaySum(log, i + 1, when.day)
    && (if when.month in file.months then file.months[when.month] else 0) == MonthSum(log, i + 1, when.month)
  }

  lemma HasSumsExactly(log: seq<Commit>, i: nat)
    requires i < |log|
    ensures FileHasSums(log, i) <==> ReturnsTruth(log, i)
  {
    var when := log[i].when;
    FullSums(log, i + 1, when.day, when.month);
    KeptFailures(log[..i + 1]);
  }

  /** Every commit leaves on file, and so returns, the sum of the increases of its day and the sum of
      those of its month, if and only if no run commits again after it was forgotten with money booked. */
  lemma CommitsReturnSums(log: seq<Commit>)
    requires Steady(log)
    ensures (forall i | 0 <= i < |log| :: FileHasSums(log, i)) <==> (forall i | 0 <= i < |log| :: !BooksTwice(log, i))
  {
    forall i | 0 <= i < |log| ensures FileHasSums(log, i) <==> ReturnsTruth(log, i) {
      HasSumsExactly(log, i);
    }
    PrunedAgreesExactly(log);
  }

  /** So does the next commit, when none before it booked twice. */
  lemma NextHasSums(log: seq<Commit>, c: Commit)
    requires Steady(log + [c]) && forall i | 0 <= i < |log| :: !BooksTwice(log, i)
    ensures var all, n, file := log + [c], |log|, Kept(log + [c]);
            (Get(file.days, c.when.day) == DaySum(all, n + 1, c.when.day)
             && Get(file.months, c.when.month) == MonthSum(all, n + 1, c.when.month))
            <==> !BooksTwice(all, n)
  {
    SteadyUpTo(log, c);
    AgreeUpTo(log, |log|);
    assert log[..|log|] == log && (log + [c])[..|log| + 1] == log + [c];
    OneMoreCommit(log, c);
    KeptFailures(log + [c]);
    FullSums(log + [c], |log| + 1, c.when.day, c.when.month);
  }

  /** Nothing on file is older than the retention: no day, and no run. */
  lemma {:induction false} NothingOld(log: seq<Commit>)
    requires log != []
    ensures var file, now := Kept(log), log[|log| - 1].when;
            && (forall d | d in file.days :: now.day - 62 <= d)
            && (forall r | r in file.runs :: now.day - 62 <= file.runs[r].day)
            && |file.months| <= 24
  {
    var c := log[|log| - 1];
    FewMonths(Booked(Kept(log[..|log| - 1]), c.run, c.cost, c.when).months);
  }

  /** At most the retention's number of keys have fewer than that many keys after them. */
  lemma {:induction false} FewMonths(bucket: map<int, int>)
    ensures |map m | m in bucket && |Later(bucket, m)| < RETAIN_MONTHS :: bucket[m]| <= RETAIN_MONTHS
  {
    var kept := map m | m in bucket && |Later(bucket, m)| < RETAIN_MONTHS :: bucket[m];
    if kept.Keys != {} {
      var first := Least(kept.Keys);
      assert kept.Keys <= {first} + Later(bucket, first);
      SubsetSize(kept.Keys, {first} + Later(bucket, first));
      assert |kept.Keys| == |kept|;
    }
  }

  ghost function Member<T>(s: set<T>): (x: T)
    requires s != {}
    ensures x in s
  {
    var x :| x in s;
    x
  }

  lemma {:induction false} Least(s: set<int>) returns (m: int)
    requires s != {}
    ensures m in s && forall k | k in s :: m <= k
    decreases |s|
  {
    m := Member(s);
    var first, rest := m, s - {m};
    if rest != {} {
      var n := Least(rest);
      m := if n < first then n else first;
    }
    forall k | k in s ensures m <= k {
      assert k == first || k in rest;
    }
  }
}
