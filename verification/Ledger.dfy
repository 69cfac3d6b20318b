/** The spend ledger of one machine: day and month totals booked from absolute run totals, with
    old entries pruned. */
module Ledger {
  import opened Options

  type RunId = string

  const RETAIN_DAYS := 62
  const RETAIN_MONTHS := 24

  datatype Entry = Entry(cost: int, day: int, month: int)

  datatype Doc = Doc(runs: map<RunId, Entry>, days: map<int, int>, months: map<int, int>, failures: nat)

  /** The moment of a commit: its day and its month, both counted. */
  datatype Moment = Moment(day: int, month: int)

  datatype SpendState = SpendState(day: int, month: int, failures: nat)

  const EMPTY := Doc(map[], map[], map[], 0)

  // ----- specification ------------------------------------------------------------------------

  function Get(bucket: map<int, int>, key: int): int {
    if key in bucket then bucket[key] else 0
  }

  /** What a run had committed before. */
  function Committed(doc: Doc, run: RunId): int {
    if run in doc.runs then doc.runs[run].cost else 0
  }

  function Amount(cost: Option<int>): int {
    cost.GetOr(0)
  }

  /** Book a run's absolute total: the difference goes to the moment's day and month. */
  function Booked(doc: Doc, run: RunId, cost: Option<int>, when: Moment): Doc {
    var delta := Amount(cost) - Committed(doc, run);
    var runs := doc.runs[run := Entry(Amount(cost), when.day, when.month)];
    if delta == 0 then doc.(runs := runs)
    else doc.(runs := runs, days := doc.days[when.day := Get(doc.days, when.day) + delta],
              months := doc.months[when.month := Get(doc.months, when.month) + delta])
  }

  /** The keys of a bucket that come after `k`. */
  function Later(bucket: map<int, int>, k: int): set<int> {
    set j | j in bucket && k < j
  }

  /** Days and runs older than the retention, and all but the last months, are dropped. */
  function Pruned(doc: Doc, now: Moment): Doc {
    doc.(days := map d | d in doc.days && now.day - RETAIN_DAYS <= d :: doc.days[d],
         months := map m | m in doc.months && |Later(doc.months, m)| < RETAIN_MONTHS :: doc.months[m],
         runs := map r | r in doc.runs && now.day - RETAIN_DAYS <= doc.runs[r].day :: doc.runs[r])
  }

  function Applied(doc: Doc, run: RunId, cost: Option<int>, when: Moment): Doc {
    Pruned(Booked(doc, run, cost, when), when)
  }

  function StateOf(doc: Doc, when: Moment): SpendState {
    SpendState(Get(doc.days, when.day), Get(doc.months, when.month), doc.failures)
  }

  // ----- the ledger ---------------------------------------------------------------------------

  class SpendLedger {
    /** The document on disk. */
    var file: Doc

    constructor ()
      ensures file == EMPTY
    {
      file := EMPTY;
    }

    method Read(when: Moment) returns (state: SpendState)
      ensures state == StateOf(file, when)
      ensures state.day == if when.day in file.days then file.days[when.day] else 0
      ensures state.month == if when.month in file.months then file.months[when.month] else 0
      ensures state.failures == file.failures
    {
      state := StateOf(file, when);
    }

    method Commit(run: RunId, cost: Option<int>, when: Moment) returns (state: SpendState)
      modifies this
      ensures file == Applied(old(file), run, cost, when)
      ensures state == StateOf(file, when)
      ensures state.day == if when.day in file.days then file.days[when.day] else 0
      ensures state.month == if when.month in file.months then file.months[when.month] else 0
      ensures state.failures == file.failures == old(file.failures)
      ensures run in file.runs && file.runs[run] == Entry(cost.GetOr(0), when.day, when.month)
      ensures forall d | d in file.days :: when.day <= d + RETAIN_DAYS
      ensures forall r | r in file.runs :: when.day <= file.runs[r].day + RETAIN_DAYS
    {
      var data := file;
      var amount := Amount(cost);
      var delta := amount - Committed(data, run);
      data := data.(runs := data.runs[run := Entry(amount, when.day, when.month)]);
      if delta != 0 {
        data := data.(days := data.days[when.day := Get(data.days, when.day) + delta]);
        data := data.(months := data.months[when.month := Get(data.months, when.month) + delta]);
      }
      assert data == Booked(file, run, cost, when);
      data := Pruned(data, when);
      file := data;
      state := StateOf(data, when);
    }

    method RecordOutcome(failed: bool) returns (value: nat)
      modifies this
      ensures value == if failed then old(file.failures) + 1 else 0
      ensures file == old(file).(failures := value)
    {
      value := if failed then file.failures + 1 else 0;
      file := file.(failures := value);
    }

    method ResetFailures()
      modifies this
      ensures file == old(file).(failures := 0)
    {
      file := file.(failures := 0);
    }
  }

  function Members(s: seq<int>): set<int> {
    set k | k in s
  }

  predicate Increasing(s: seq<int>) {
    forall i, j | 0 <= i < j < |s| :: s[i] < s[j]
  }

  /** The months kept are the last ones of their sorted keys, or all of them when there are few. */
  lemma MonthsKeptAreLast(doc: Doc, now: Moment, sorted: seq<int>)
    requires Increasing(sorted) && forall k :: k in sorted <==> k in doc.months
    ensures forall m | m in doc.months ::
      (m in Pruned(doc, now).months <==> |sorted| <= RETAIN_MONTHS || m in sorted[|sorted| - RETAIN_MONTHS..])
  {
    IncreasingCount(sorted);
    assert Members(sorted) == doc.months.Keys;
    if |sorted| <= RETAIN_MONTHS {
      FewAreLast(doc.months);
    } else {
      LastOfSorted(sorted, |sorted| - RETAIN_MONTHS, doc.months);
    }
  }

  lemma LastOfSorted(s: seq<int>, n: nat, bucket: map<int, int>)
    requires Increasing(s) && n <= |s| && forall k :: k in s <==> k in bucket
    ensures forall m | m in bucket :: m in s[n..] <==> |Later(bucket, m)| < |s| - n
  {
    forall m | m in bucket ensures m in s[n..] <==> |Later(bucket, m)| < |s| - n {
      var i :| 0 <= i < |s| && s[i] == m;
      forall k | k in Later(bucket, m) ensures k in s[i + 1..] {
        var j :| 0 <= j < |s| && s[j] == k;
        assert s[i + 1..][j - i - 1] == k;
      }
      IncreasingCount(s[i + 1..]);
      assert Later(bucket, m) == Members(s[i + 1..]);
      if n <= i {
        assert s[n..][i - n] == m;
      }
    }
  }

  lemma {:induction false} IncreasingCount(s: seq<int>)
    requires Increasing(s)
    ensures |Members(s)| == |s|
    decreases |s|
  {
    if s == [] {
      assert Members(s) == {};
    } else {
      IncreasingCount(s[1..]);
      assert s == [s[0]] + s[1..];
      assert Members(s) == {s[0]} + Members(s[1..]);
    }
  }

  lemma FewAreLast(bucket: map<int, int>)
    requires |bucket| <= RETAIN_MONTHS
    ensures forall m | m in bucket :: |Later(bucket, m)| < RETAIN_MONTHS
  {
    forall m | m in bucket ensures |Later(bucket, m)| < RETAIN_MONTHS {
      SubsetSize(Later(bucket, m), bucket.Keys - {m});
    }
  }

  lemma SubsetSize(a: set<int>, b: set<int>)
    requires a <= b
    ensures |a| <= |b|
  {
    assert a + (b - a) == b;
  }
}
