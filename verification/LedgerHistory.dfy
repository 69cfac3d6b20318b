/** The pruned ledger against the whole history of commits, and what booking conserves. */
module LedgerHistory {
  import opened Options
  import opened Ledger

  datatype Commit = Commit(run: RunId, cost: Option<int>, when: Moment)

  /** The ledger that never forgets. */
  function Full(log: seq<Commit>): Doc {
    if log == [] then EMPTY
    else
      var c := log[|log| - 1];
      Booked(Full(log[..|log| - 1]), c.run, c.cost, c.when)
  }

  /** The ledger as it is kept: pruned at every commit. */
  function Kept(log: seq<Commit>): Doc {
    if log == [] then EMPTY
    else
      var c := log[|log| - 1];
      Applied(Kept(log[..|log| - 1]), c.run, c.cost, c.when)
  }

  /** The commits land in the order of their moments. */
  predicate Clocked(log: seq<Commit>) {
    forall i, j | 0 <= i < j < |log| :: log[i].when.day <= log[j].when.day && log[i].when.month <= log[j].when.month
  }

  /** No commit has pruned the day or the month yet, wherever the other commits stand. */
  predicate OpenDay(log: seq<Commit>, day: int) {
    forall c | c in log :: c.when.day - RETAIN_DAYS <= day
  }

  predicate OpenMonth(log: seq<Commit>, month: int) {
    forall c | c in log :: c.when.month - RETAIN_MONTHS < month
  }

  /** The moments may be out of order, but no commit lands in a day or a month already pruned. */
  predicate Steady(log: seq<Commit>) {
    forall i | 0 <= i < |log| :: OpenDay(log[..i], log[i].when.day) && OpenMonth(log[..i], log[i].when.month)
  }

  lemma ClockedIsSteady(log: seq<Commit>)
    requires Clocked(log)
    ensures Steady(log)
  {
    forall i, c | 0 <= i < |log| && c in log[..i]
      ensures c.when.day <= log[i].when.day && c.when.month <= log[i].when.month
    {
      var j :| 0 <= j < i && log[j] == c;
    }
  }

  lemma SteadyUpTo(log: seq<Commit>, c: Commit)
    requires Steady(log + [c])
    ensures Steady(log) && OpenDay(log, c.when.day) && OpenMonth(log, c.when.month)
  {
    var all := log + [c];
    forall i | 0 <= i < |log| ensures OpenDay(log[..i], log[i].when.day) && OpenMonth(log[..i], log[i].when.month) {
      assert all[..i] == log[..i] && all[i] == log[i];
    }
    assert all[..|log|] == log && all[|log|] == c;
  }

  /** The run has committed, and no commit that landed later has pruned its entry. */
  predicate Alive(log: seq<Commit>, run: RunId)
    ensures Alive(log, run) ==> run in Full(log).runs
  {
    log != [] &&
    var before, c := log[..|log| - 1], log[|log| - 1];
    c.run == run || (Alive(before, run) && c.when.day - RETAIN_DAYS <= Full(before).runs[run].day)
  }

  /** By commit `i` its run had been forgotten: it had committed, and its entry was pruned since. */
  predicate Forgotten(log: seq<Commit>, i: nat)
    requires i < |log|
  {
    log[i].run in Full(log[..i]).runs && !Alive(log[..i], log[i].run)
  }

  /** Commit `i` books a total the ledger had already booked once. */
  predicate BooksTwice(log: seq<Commit>, i: nat)
    requires i < |log|
  {
    Forgotten(log, i) && Full(log[..i]).runs[log[i].run].cost != 0
  }

  /** What commit `i` returns is what the whole history says. */
  predicate ReturnsTruth(log: seq<Commit>, i: nat)
    requires i < |log|
  {
    StateOf(Kept(log[..i + 1]), log[i].when) == StateOf(Full(log[..i + 1]), log[i].when)
  }

  lemma Unfold(log: seq<Commit>, c: Commit)
    ensures Kept(log + [c]) == Applied(Kept(log), c.run, c.cost, c.when)
    ensures Full(log + [c]) == Booked(Full(log), c.run, c.cost, c.when)
    ensures (log + [c])[..|log|] == log && (log + [c])[|log|] == c
  {}

  /** The entries kept are exactly those of the runs that are alive, whatever order the moments
      come in. */
  lemma {:induction false} KeptRuns(log: seq<Commit>)
    ensures forall r :: r in Kept(log).runs <==> Alive(log, r)
    ensures forall r | r in Kept(log).runs :: r in Full(log).runs && Kept(log).runs[r] == Full(log).runs[r]
    decreases |log|
  {
    if log != [] {
      KeptRuns(log[..|log| - 1]);
    }
  }

  /** The baseline a commit is booked against is the true one unless its run was forgotten. */
  lemma Baseline(log: seq<Commit>, i: nat)
    requires i < |log|
    ensures Committed(Kept(log[..i]), log[i].run)
         == if Forgotten(log, i) then 0 else Committed(Full(log[..i]), log[i].run)
  {
    KeptRuns(log[..i]);
  }

  /** `after` is `before` with `delta` added to one bucket. */
  ghost predicate Adds(before: map<int, int>, after: map<int, int>, key: int, delta: int) {
    && (forall k :: Get(after, k) == Get(before, k) + if k == key then delta else 0)
    && (forall k | k in after :: k in before || k == key)
  }

  lemma BookedTotals(doc: Doc, c: Commit)
    ensures var booked, delta := Booked(doc, c.run, c.cost, c.when), Amount(c.cost) - Committed(doc, c.run);
            && Adds(doc.days, booked.days, c.when.day, delta)
            && Adds(doc.months, booked.months, c.when.month, delta)
  {}

  /** The `n` numbers after `lo`. */
  function After(lo: int, n: nat): (r: set<int>)
    ensures |r| == n && forall k :: k in r <==> lo < k <= lo + n
  {
    if n == 0 then {} else After(lo, n - 1) + {lo + n}
  }

  /** Pruning touches no day within the retention, and no month when no bucket is that far ahead. */
  lemma PrunedTotals(doc: Doc, now: Moment, m: int)
    requires forall k | k in doc.months :: k - RETAIN_MONTHS < m
    ensures forall d | now.day - RETAIN_DAYS <= d :: Get(Pruned(doc, now).days, d) == Get(doc.days, d)
    ensures Get(Pruned(doc, now).months, m) == Get(doc.months, m)
  {
    SubsetSize(Later(doc.months, m), After(m, RETAIN_MONTHS - 1));
  }

  // ----- buckets that may still be booked in ----------------------------------------------------

  ghost predicate DaysAgree(log: seq<Commit>) {
    forall d | OpenDay(log, d) :: Get(Kept(log).days, d) == Get(Full(log).days, d)
  }

  ghost predicate MonthsAgree(log: seq<Commit>) {
    forall m | OpenMonth(log, m) :: Get(Kept(log).months, m) == Get(Full(log).months, m)
  }

  /** No bucket that is still open differs. */
  ghost predicate BucketsAgree(log: seq<Commit>) {
    DaysAgree(log) && MonthsAgree(log)
  }

  lemma {:induction false} MonthsOfLog(log: seq<Commit>, m: int)
    requires OpenMonth(log, m)
    ensures forall k | k in Kept(log).months :: k - RETAIN_MONTHS < m
    decreases |log|
  {
    if log != [] {
      var before, c := log[..|log| - 1], log[|log| - 1];
      assert log == before + [c];
      assert forall x | x in before :: x in log;
      MonthsOfLog(before, m);
      assert c in log;
      BookedTotals(Kept(before), c);
    }
  }

  /** What is open after one more commit was open before, and is not pruned by it. */
  lemma OpenBefore(log: seq<Commit>, c: Commit)
    ensures forall d :: OpenDay(log + [c], d) <==> OpenDay(log, d) && c.when.day - RETAIN_DAYS <= d
    ensures forall m :: OpenMonth(log + [c], m) <==> OpenMonth(log, m) && c.when.month - RETAIN_MONTHS < m
  {
    assert forall x :: x in log + [c] <==> x in log || x == c;
  }

  /** By how much one more commit leaves an open day off, when it was right before. */
  lemma DayAfter(log: seq<Commit>, c: Commit, d: int)
    requires DaysAgree(log) && OpenDay(log + [c], d)
    ensures Get(Kept(log + [c]).days, d) - Get(Full(log + [c]).days, d)
         == if d == c.when.day then Committed(Full(log), c.run) - Committed(Kept(log), c.run) else 0
  {
    Unfold(log, c);
    OpenBefore(log, c);
    BookedTotals(Kept(log), c);
    BookedTotals(Full(log), c);
  }

  lemma MonthAfter(log: seq<Commit>, c: Commit, m: int)
    requires MonthsAgree(log) && OpenMonth(log + [c], m)
    ensures Get(Kept(log + [c]).months, m) - Get(Full(log + [c]).months, m)
         == if m == c.when.month then Committed(Full(log), c.run) - Committed(Kept(log), c.run) else 0
  {
    Unfold(log, c);
    OpenBefore(log, c);
    BookedTotals(Kept(log), c);
    BookedTotals(Full(log), c);
    MonthsOfLog(log, m);
    PrunedTotals(Booked(Kept(log), c.run, c.cost, c.when), c.when, m);
  }

  /** One more commit: its totals are true if and only if it books nothing twice, and the buckets
      go on agreeing when they are. */
  lemma OneMoreCommit(log: seq<Commit>, c: Commit)
    requires BucketsAgree(log) && OpenDay(log, c.when.day) && OpenMonth(log, c.when.month)
    ensures StateOf(Kept(log + [c]), c.when) == StateOf(Full(log + [c]), c.when) <==> !BooksTwice(log + [c], |log|)
    ensures !BooksTwice(log + [c], |log|) ==> BucketsAgree(log + [c])
  {
    Unfold(log, c);
    OpenBefore(log, c);
    Baseline(log + [c], |log|);
    KeptFailures(log + [c]);
    DayAfter(log, c, c.when.day);
    MonthAfter(log, c, c.when.month);
    if !BooksTwice(log + [c], |log|) {
      forall d | OpenDay(log + [c], d) ensures Get(Kept(log + [c]).days, d) == Get(Full(log + [c]).days, d) {
        DayAfter(log, c, d);
      }
      forall m | OpenMonth(log + [c], m) ensures Get(Kept(log + [c]).months, m) == Get(Full(log + [c]).months, m) {
        MonthAfter(log, c, m);
      }
    }
  }

  lemma OneCommit(log: seq<Commit>, i: nat)
    requires Steady(log) && i < |log| && BucketsAgree(log[..i])
    ensures ReturnsTruth(log, i) <==> !BooksTwice(log, i)
    ensures !BooksTwice(log, i) ==> BucketsAgree(log[..i + 1])
  {
    PrefixSnoc(log, i);
    OneMoreCommit(log[..i], log[i]);
  }

  lemma PrefixSnoc(log: seq<Commit>, i: nat)
    requires i < |log|
    ensures log[..i + 1] == log[..i] + [log[i]]
    ensures BooksTwice(log[..i] + [log[i]], i) <==> BooksTwice(log, i)
  {
    assert (log[..i] + [log[i]])[..i] == log[..i];
  }

  lemma {:induction false} KeptFailures(log: seq<Commit>)
    ensures Kept(log).failures == Full(log).failures == 0
    decreases |log|
  {
    if log != [] {
      KeptFailures(log[..|log| - 1]);
    }
  }

  lemma NothingAgrees()
    ensures BucketsAgree([])
  {}

  /** The first `n` commits booked nothing twice. */
  predicate NoneTwice(log: seq<Commit>, n: nat) {
    n <= |log| && forall i | 0 <= i < n :: !BooksTwice(log, i)
  }

  /** The first `n` commits returned what the whole history says. */
  predicate AllTrue(log: seq<Commit>, n: nat) {
    n <= |log| && forall i | 0 <= i < n :: ReturnsTruth(log, i)
  }

  lemma {:induction false} AgreeUpTo(log: seq<Commit>, n: nat)
    requires Steady(log) && NoneTwice(log, n)
    ensures BucketsAgree(log[..n]) && AllTrue(log, n)
    decreases n
  {
    if n == 0 {
      assert log[..0] == [];
      NothingAgrees();
    } else {
      AgreeUpTo(log, n - 1);
      assert !BooksTwice(log, n - 1);
      OneCommit(log, n - 1);
      AllTrueMore(log, n - 1);
    }
  }

  lemma AllTrueMore(log: seq<Commit>, n: nat)
    requires AllTrue(log, n) && n < |log| && ReturnsTruth(log, n)
    ensures AllTrue(log, n + 1)
  {
    forall i | 0 <= i < n + 1 ensures ReturnsTruth(log, i) {
      if i == n {
        assert ReturnsTruth(log, n);
      }
    }
  }

  /** The pruned ledger returns the totals of the whole history at every commit, if and only if
      no run commits again after it was forgotten with money booked. */
  lemma PrunedAgreesExactly(log: seq<Commit>)
    requires Steady(log)
    ensures (forall i | 0 <= i < |log| :: ReturnsTruth(log, i)) <==> (forall i | 0 <= i < |log| :: !BooksTwice(log, i))
  {
    if forall i | 0 <= i < |log| :: !BooksTwice(log, i) {
      AgreeUpTo(log, |log|);
    } else {
      var bad :| 0 <= bad < |log| && BooksTwice(log, bad);
      var first := FirstBad(log, bad);
      AgreeUpTo(log, first);
      OneCommit(log, first);
    }
  }

  lemma {:induction false} FirstBad(log: seq<Commit>, bad: nat) returns (first: nat)
    requires bad < |log| && BooksTwice(log, bad)
    ensures first < |log| && BooksTwice(log, first) && forall i | 0 <= i < first :: !BooksTwice(log, i)
    decreases bad
  {
    if i :| 0 <= i < bad && BooksTwice(log, i) {
      first := FirstBad(log, i);
    } else {
      first := bad;
    }
  }

  /** No run goes longer than the retention between two of its commits. */
  predicate RunsStayActive(log: seq<Commit>) {
    forall j, k | 0 <= j < k < |log| && log[j].run == log[k].run && Silent(log, j + 1, k, log[j].run) ::
      log[k].when.day - log[j].when.day <= RETAIN_DAYS
  }

  /** `run` commits nowhere from `lo` up to `hi`. */
  predicate Silent(log: seq<Commit>, lo: nat, hi: nat, run: RunId)
    requires hi <= |log|
  {
    forall x | lo <= x < hi :: log[x].run != run
  }

  /** `log[j]` is the last commit of its run. */
  predicate IsLast(log: seq<Commit>, j: nat) {
    j < |log| && Silent(log, j + 1, |log|, log[j].run)
  }

  /** No commit landed since that is more than the retention ahead of it. */
  predicate StillKept(log: seq<Commit>, j: nat)
    requires j < |log|
  {
    forall k | j < k < |log| :: log[k].when.day <= log[j].when.day + RETAIN_DAYS
  }

  /** A run is alive if and only if no commit since its last one was more than the retention ahead. */
  lemma {:induction false} AliveExactly(log: seq<Commit>, j: nat)
    requires IsLast(log, j)
    ensures log[j].run in Full(log).runs && Full(log).runs[log[j].run].day == log[j].when.day
    ensures Alive(log, log[j].run) <==> StillKept(log, j)
    decreases |log|
  {
    var n := |log| - 1;
    if j < n {
      OneCommitLess(log, j);
      AliveExactly(log[..n], j);
    }
  }

  lemma OneCommitLess(log: seq<Commit>, j: nat)
    requires IsLast(log, j) && j < |log| - 1
    ensures var n := |log| - 1;
            && log[n].run != log[j].run && log[..n][j] == log[j] && IsLast(log[..n], j)
            && (StillKept(log, j) <==> StillKept(log[..n], j) && log[n].when.day <= log[j].when.day + RETAIN_DAYS)
  {
    var n := |log| - 1;
    assert forall x | 0 <= x < n :: log[..n][x] == log[x];
  }

  lemma ActiveIsNotForgotten(log: seq<Commit>, k: nat)
    requires Clocked(log) && RunsStayActive(log) && k < |log|
    ensures !Forgotten(log, k)
  {
    if log[k].run in Full(log[..k]).runs {
      var j := LastCommit(log[..k], log[k].run);
      assert forall x | 0 <= x < k :: log[..k][x] == log[x];
      assert Silent(log, j + 1, k, log[j].run);
      AliveExactly(log[..k], j);
    }
  }

  /** Then every total returned is the true one. */
  lemma PrunedAgreesWhenRunsStayActive(log: seq<Commit>, i: nat)
    requires Clocked(log) && RunsStayActive(log) && i < |log|
    ensures ReturnsTruth(log, i)
  {
    forall k | 0 <= k < |log| ensures !BooksTwice(log, k) {
      ActiveIsNotForgotten(log, k);
    }
    ClockedIsSteady(log);
    PrunedAgreesExactly(log);
  }

  /** A run's entry is dated by its last commit. */
  lemma {:induction false} LastCommit(log: seq<Commit>, run: RunId) returns (j: nat)
    requires run in Full(log).runs
    ensures j < |log| && log[j].run == run && Full(log).runs[run].day == log[j].when.day
    ensures forall x | j < x < |log| :: log[x].run != run
    decreases |log|
  {
    var n := |log| - 1;
    if log[n].run == run {
      j := n;
    } else {
      j := LastCommit(log[..n], run);
      assert log[..n][j] == log[j];
      forall x | j < x < |log| ensures log[x].run != run {
        assert x < n ==> log[..n][x] == log[x];
      }
    }
  }

  // ----- conservation -------------------------------------------------------------------------

  /** The sum of the buckets from `lo` up to `hi`. */
  function SumBuckets(bucket: map<int, int>, lo: int, hi: int): int
    decreases hi - lo
  {
    if hi <= lo then 0 else SumBuckets(bucket, lo, hi - 1) + Get(bucket, hi - 1)
  }

  /** The sum of the last committed totals of some runs. */
  function SumRuns(doc: Doc, ids: seq<RunId>): int {
    if ids == [] then 0 else SumRuns(doc, ids[..|ids| - 1]) + Committed(doc, ids[|ids| - 1])
  }

  lemma {:induction false} SumAfter(before: map<int, int>, after: map<int, int>, key: int, delta: int, lo: int, hi: int)
    requires Adds(before, after, key, delta)
    ensures SumBuckets(after, lo, hi) == SumBuckets(before, lo, hi) + if lo <= key < hi then delta else 0
    decreases hi - lo
  {
    if lo < hi {
      SumAfter(before, after, key, delta, lo, hi - 1);
    }
  }

  lemma {:induction false} SumRunsAfter(before: Doc, after: Doc, run: RunId, delta: int, ids: seq<RunId>)
    requires forall r :: Committed(after, r) == Committed(before, r) + if r == run then delta else 0
    requires forall i, j | 0 <= i < j < |ids| :: ids[i] != ids[j]
    ensures SumRuns(after, ids) == SumRuns(before, ids) + if run in ids then delta else 0
    decreases |ids|
  {
    if ids != [] {
      SumRunsAfter(before, after, run, delta, ids[..|ids| - 1]);
      assert ids == ids[..|ids| - 1] + [ids[|ids| - 1]];
    }
  }

  lemma {:induction false} SumNothing(doc: Doc, lo: int, hi: int, ids: seq<RunId>)
    requires doc == EMPTY
    ensures SumBuckets(doc.days, lo, hi) == 0 && SumBuckets(doc.months, lo, hi) == 0 && SumRuns(doc, ids) == 0
    decreases (if lo < hi then hi - lo else 0) + |ids|
  {
    if lo < hi {
      SumNothing(doc, lo, hi - 1, ids);
    } else if ids != [] {
      SumNothing(doc, lo, hi, ids[..|ids| - 1]);
    }
  }

  lemma {:induction false} SumsOf(log: seq<Commit>, dlo: int, dhi: int, mlo: int, mhi: int, ids: seq<RunId>)
    requires forall c | c in log :: dlo <= c.when.day < dhi && mlo <= c.when.month < mhi && c.run in ids
    requires forall i, j | 0 <= i < j < |ids| :: ids[i] != ids[j]
    ensures SumBuckets(Full(log).days, dlo, dhi) == SumBuckets(Full(log).months, mlo, mhi) == SumRuns(Full(log), ids)
    decreases |log|
  {
    if log == [] {
      SumNothing(EMPTY, dlo, dhi, ids);
      SumNothing(EMPTY, mlo, mhi, ids);
    } else {
      var c, before := log[|log| - 1], Full(log[..|log| - 1]);
      SumsOf(log[..|log| - 1], dlo, dhi, mlo, mhi, ids);
      BookedTotals(before, c);
      var after, delta := Booked(before, c.run, c.cost, c.when), Amount(c.cost) - Committed(before, c.run);
      assert c in log;
      SumAfter(before.days, after.days, c.when.day, delta, dlo, dhi);
      SumAfter(before.months, after.months, c.when.month, delta, mlo, mhi);
      SumRunsAfter(before, after, c.run, delta, ids);
    }
  }

  /** Commit `n` pruned nothing. */
  predicate PrunesNothing(log: seq<Commit>, n: nat)
    requires n < |log|
  {
    var booked := Booked(Kept(log[..n]), log[n].run, log[n].cost, log[n].when);
    Pruned(booked, log[n].when) == booked
  }

  lemma {:induction false} UnprunedIsFull(log: seq<Commit>)
    requires forall n | 0 <= n < |log| :: PrunesNothing(log, n)
    ensures Kept(log) == Full(log)
    decreases |log|
  {
    if log != [] {
      var last := |log| - 1;
      forall n | 0 <= n < last ensures PrunesNothing(log[..last], n) {
        assert log[..last][..n] == log[..n] && log[..last][n] == log[n];
        assert PrunesNothing(log, n);
      }
      UnprunedIsFull(log[..last]);
      assert PrunesNothing(log, last);
    }
  }

  /** While nothing is pruned, the day buckets, the month buckets and the runs' last committed
      totals all add up to the same amount. */
  lemma Conservation(log: seq<Commit>, dlo: int, dhi: int, mlo: int, mhi: int, ids: seq<RunId>)
    requires forall n | 0 <= n < |log| :: PrunesNothing(log, n)
    requires forall c | c in log :: dlo <= c.when.day < dhi && mlo <= c.when.month < mhi && c.run in ids
    requires forall i, j | 0 <= i < j < |ids| :: ids[i] != ids[j]
    ensures SumBuckets(Kept(log).days, dlo, dhi) == SumBuckets(Kept(log).months, mlo, mhi) == SumRuns(Kept(log), ids)
  {
    UnprunedIsFull(log);
    SumsOf(log, dlo, dhi, mlo, mhi, ids);
  }

  // ----- repeated commits ---------------------------------------------------------------------

  lemma {:induction false} LastTotal(log: seq<Commit>, j: nat)
    requires IsLast(log, j)
    ensures log[j].run in Full(log).runs && Committed(Full(log), log[j].run) == Amount(log[j].cost)
    decreases |log|
  {
    var n := |log| - 1;
    if j < n {
      assert log[n].run != log[j].run;
      assert log[..n][j] == log[j];
      forall x | j + 1 <= x < n ensures log[..n][x].run != log[j].run {
        assert log[..n][x] == log[x];
      }
      LastTotal(log[..n], j);
    }
  }

  /** The commit repeats the total that its run committed last, whenever and whatever came between. */
  predicate Repeats(log: seq<Commit>, j: nat, c: Commit) {
    IsLast(log, j) && log[j].run == c.run && Amount(log[j].cost) == Amount(c.cost)
  }

  /** In the whole history a repeated commit changes no bucket and no run's total. */
  lemma RepeatChangesNoTotal(log: seq<Commit>, j: nat, c: Commit)
    requires Repeats(log, j, c)
    ensures var before, after := Full(log), Full(log + [c]);
            after.days == before.days && after.months == before.months
            && forall r :: Committed(after, r) == Committed(before, r)
  {
    LastTotal(log, j);
    assert (log + [c])[..|log|] == log;
  }

  /** Beyond the pruning of its moment, the commit moved nothing in the ledger as it is kept. */
  predicate BooksNothing(before: Doc, after: Doc, when: Moment) {
    after.days == Pruned(before, when).days && after.months == Pruned(before, when).months
  }

  /** A repeated commit, at any moment, with any commits of other runs between and in whatever order
      their moments come, books nothing if and only if its run is still kept or its total is 0. */
  lemma RepeatedCommit(log: seq<Commit>, j: nat, c: Commit)
    requires Repeats(log, j, c)
    ensures BooksNothing(Kept(log), Kept(log + [c]), c.when) <==> StillKept(log, j) || Amount(c.cost) == 0
  {
    Unfold(log, c);
    LastTotal(log, j);
    AliveExactly(log, j);
    KeptRuns(log);
    var before, after := Kept(log), Kept(log + [c]);
    if Alive(log, c.run) || Amount(c.cost) == 0 {
      assert Booked(before, c.run, c.cost, c.when).days == before.days;
    } else {
      assert c.when.day in after.days;
      assert Get(after.days, c.when.day) == Get(before.days, c.when.day) + Amount(c.cost);
      assert Get(Pruned(before, c.when).days, c.when.day) == Get(before.days, c.when.day);
    }
  }

  /** When commits land at most `late` days behind the ones before them, a repeat counts nothing twice
      as long as the gap since the run's last commit leaves that much of the retention. */
  lemma RepeatedCommitOfActiveRun(log: seq<Commit>, j: nat, c: Commit, late: nat)
    requires Repeats(log, j, c)
    requires forall k | 0 <= k < |log| :: log[k].when.day <= c.when.day + late
    requires c.when.day - log[j].when.day + late <= RETAIN_DAYS
    ensures BooksNothing(Kept(log), Kept(log + [c]), c.when)
  {
    RepeatedCommit(log, j, c);
  }

  /** Repeated at the same moment with nothing between, the commit leaves the document as it is. */
  lemma RepeatedAtOnce(doc: Doc, run: RunId, cost: Option<int>, when: Moment)
    ensures Applied(Applied(doc, run, cost, when), run, cost, when) == Applied(doc, run, cost, when)
  {
    var once := Applied(doc, run, cost, when);
    var again := Booked(once, run, cost, when);
    assert once.runs[run] == Entry(Amount(cost), when.day, when.month);
    assert again.runs == once.runs && again == once;
    PrunedTwice(Booked(doc, run, cost, when), when);
  }

  lemma PrunedTwice(doc: Doc, now: Moment)
    ensures Pruned(Pruned(doc, now), now) == Pruned(doc, now)
  {
    var once := Pruned(doc, now);
    forall m | m in once.months ensures |Later(once.months, m)| < RETAIN_MONTHS {
      SubsetSize(Later(once.months, m), Later(doc.months, m));
    }
    assert Pruned(once, now).months == once.months;
  }

  /** An unknown cost is booked as a total of zero: the day and month totals that the commit returns
      fall by what the run had committed before, so they stay if and only if that was nothing. */
  lemma UnknownCostBooksBack(doc: Doc, run: RunId, when: Moment)
    requires forall m | m in doc.months :: m - RETAIN_MONTHS < when.month
    ensures var before, after := StateOf(doc, when), StateOf(Applied(doc, run, None, when), when);
            && after.day == before.day - Committed(doc, run) && after.month == before.month - Committed(doc, run)
            && (after == before <==> Committed(doc, run) == 0)
  {
    PrunedTotals(Booked(doc, run, None, when), when, when.month);
  }

  /** A run commits money, another one commits after the retention has passed, and the first
      commits again: the ledger has counted it twice. */
  lemma ForgottenCountsTwice(x: Commit, y: Commit, z: Commit)
    requires Steady([x, y, z]) && x.run == z.run != y.run && Amount(x.cost) != 0
    requires x.when.day + RETAIN_DAYS < y.when.day
    ensures BooksTwice([x, y, z], 2) && !ReturnsTruth([x, y, z], 2)
  {
    var log := [x, y, z];
    TwoCommits(x, y);
    assert log[..0] == [] && log[..1] == [x] && log[..2] == [x, y];
    NotTwice(log, 0);
    NotTwice(log, 1);
    AgreeUpTo(log, 2);
    OneCommit(log, 2);
  }

  lemma ForgottenExample()
    ensures var log := [Commit("a", Some(10), Moment(0, 0)), Commit("b", Some(1), Moment(100, 3)),
                        Commit("a", Some(10), Moment(100, 3))];
            Clocked(log) && !ReturnsTruth(log, 2)
  {
    var x, y, z := Commit("a", Some(10), Moment(0, 0)), Commit("b", Some(1), Moment(100, 3)),
                   Commit("a", Some(10), Moment(100, 3));
    ClockedIsSteady([x, y, z]);
    ForgottenCountsTwice(x, y, z);
  }

  lemma TwoCommits(x: Commit, y: Commit)
    requires x.run != y.run
    ensures Full([x]).runs == map[x.run := Entry(Amount(x.cost), x.when.day, x.when.month)]
    ensures Full([x, y]).runs == Full([x]).runs[y.run := Entry(Amount(y.cost), y.when.day, y.when.month)]
  {
    assert [x, y][..1] == [x] && [x][..0] == [];
    assert Full([x]) == Booked(EMPTY, x.run, x.cost, x.when);
    assert Full([x, y]) == Booked(Full([x]), y.run, y.cost, y.when);
  }

  lemma NotTwice(log: seq<Commit>, i: nat)
    requires i < |log| && log[i].run !in Full(log[..i]).runs
    ensures !BooksTwice(log, i)
  {}
}
