/** Host run slots: many processes take one counted lock per provider, in sorted order, give them
    back in reverse, and may crash anywhere. */
module SlotProtocol {
  /** A provider, by its place in the sorted order of names. */
  type Provider = nat

  type Pid = nat

  /** One lock file: slots of a provider are numbered from 1. */
  datatype Slot = Slot(provider: Provider, index: nat)

  datatype Phase = Scanning(next: nat) | Running | Releasing | Done | Dead

  /** `want`: the capped providers asked for, sorted; `held[i]`: the slot taken for `want[i]`. */
  datatype Proc = Proc(want: seq<Provider>, held: seq<nat>, waits: bool, phase: Phase)

  /** `locks`: which process the kernel says holds each lock file. */
  datatype State = State(locks: map<Slot, Pid>, procs: map<Pid, Proc>)

  datatype Move =
    | Start(want: seq<Provider>, waits: bool)
    | TryOne      // flock the next file, without blocking
    | GoRound(expired: bool)  // every file was taken: sleep and start over, or give up
    | Finish      // the block ends
    | Release     // give the last slot back
    | Crash       // the kernel drops every lock of the process

  predicate Sorted(want: seq<Provider>) {
    forall i, j | 0 <= i < j < |want| :: want[i] < want[j]
  }

  function Begin(want: seq<Provider>, held: seq<nat>): Phase {
    if |held| < |want| then Scanning(1) else Running
  }

  /** Scanning the files of the next provider it asked for. */
  predicate Asking(limits: map<Provider, nat>, p: Proc) {
    p.phase.Scanning? && |p.held| < |p.want| && p.want[|p.held|] in limits
  }

  function Asked(p: Proc): Provider
    requires |p.held| < |p.want|
  {
    p.want[|p.held|]
  }

  predicate Enabled(limits: map<Provider, nat>, s: State, pid: Pid, m: Move) {
    match m
    case Start(want, _) => pid !in s.procs && Sorted(want) && forall p | p in want :: p in limits
    case TryOne =>
      pid in s.procs && Asking(limits, s.procs[pid]) && s.procs[pid].phase.next <= limits[Asked(s.procs[pid])]
    case GoRound(_) =>
      pid in s.procs && Asking(limits, s.procs[pid]) && limits[Asked(s.procs[pid])] < s.procs[pid].phase.next
    case Finish => pid in s.procs && s.procs[pid].phase.Running?
    case Release => pid in s.procs && s.procs[pid].phase.Releasing? && |s.procs[pid].held| <= |s.procs[pid].want|
    case Crash => pid in s.procs
  }

  function Do(limits: map<Provider, nat>, s: State, pid: Pid, m: Move): State
    requires Enabled(limits, s, pid, m)
  {
    match m
    case Start(want, waits) => s.(procs := s.procs[pid := Proc(want, [], waits, Begin(want, []))])
    case TryOne =>
      var p := s.procs[pid];
      var slot := Slot(Asked(p), p.phase.next);
      if slot in s.locks then s.(procs := s.procs[pid := p.(phase := Scanning(p.phase.next + 1))])
      else
        var held := p.held + [p.phase.next];
        State(s.locks[slot := pid], s.procs[pid := p.(held := held, phase := Begin(p.want, held))])
    case GoRound(expired) =>
      var p := s.procs[pid];
      var again := p.waits && !expired && limits[Asked(p)] > 0;
      s.(procs := s.procs[pid := p.(phase := if again then Scanning(1) else Releasing)])
    case Finish => s.(procs := s.procs[pid := s.procs[pid].(phase := Releasing)])
    case Release =>
      var p := s.procs[pid];
      if p.held == [] then s.(procs := s.procs[pid := p.(phase := Done)])
      else
        var last := |p.held| - 1;
        State(s.locks - {Slot(p.want[last], p.held[last])}, s.procs[pid := p.(held := p.held[..last])])
    case Crash =>
      State(map x | x in s.locks && s.locks[x] != pid :: s.locks[x],
            s.procs[pid := s.procs[pid].(held := [], phase := Dead)])
  }

  ghost predicate Next(limits: map<Provider, nat>, s: State, s': State) {
    exists pid, m :: Enabled(limits, s, pid, m) && s' == Do(limits, s, pid, m)
  }

  ghost predicate Execution(limits: map<Provider, nat>, states: seq<State>) {
    && states != [] && states[0] == State(map[], map[])
    && forall i | 0 <= i < |states| - 1 :: Next(limits, states[i], states[i + 1])
  }

  // ----- the invariant ------------------------------------------------------------------------

  /** The process holds the `i`-th slot it asked for. */
  predicate Holds(s: State, pid: Pid, i: nat, slot: Slot) {
    pid in s.procs && i < |s.procs[pid].held| && i < |s.procs[pid].want|
    && slot == Slot(s.procs[pid].want[i], s.procs[pid].held[i])
  }

  predicate Proper(limits: map<Provider, nat>, p: Proc) {
    && Sorted(p.want) && |p.held| <= |p.want|
    && (forall x | x in p.want :: x in limits)
    && (forall i | 0 <= i < |p.held| :: 1 <= p.held[i] <= limits[p.want[i]])
    && (p.phase.Scanning? ==> |p.held| < |p.want| && 1 <= p.phase.next)
    && (p.phase.Running? ==> |p.held| == |p.want|)
    && (p.phase.Done? || p.phase.Dead? ==> p.held == [])
  }

  /** What processes believe they hold is exactly what the kernel says. */
  ghost predicate Inv(limits: map<Provider, nat>, s: State) {
    && (forall pid | pid in s.procs :: Proper(limits, s.procs[pid]))
    && (forall pid, i: nat, slot | Holds(s, pid, i, slot) :: slot in s.locks && s.locks[slot] == pid)
    && (forall slot | slot in s.locks :: exists i: nat :: Holds(s, s.locks[slot], i, slot))
  }

  lemma DoKeeps(limits: map<Provider, nat>, s: State, pid: Pid, m: Move)
    requires Inv(limits, s) && Enabled(limits, s, pid, m)
    ensures Inv(limits, Do(limits, s, pid, m))
  {
    var s' := Do(limits, s, pid, m);
    forall q | q in s'.procs ensures Proper(limits, s'.procs[q]) {
      assert q != pid ==> Proper(limits, s.procs[q]);
    }
    forall q, i: nat, slot | Holds(s', q, i, slot) ensures slot in s'.locks && s'.locks[slot] == q {
      HolderLocked(limits, s, pid, m, q, i, slot);
    }
    forall slot | slot in s'.locks ensures exists i: nat :: Holds(s', s'.locks[slot], i, slot) {
      KernelAgrees(limits, s, pid, m, slot);
    }
  }

  lemma HeldBefore(limits: map<Provider, nat>, s: State, pid: Pid, m: Move, q: Pid, i: nat, slot: Slot)
    requires Enabled(limits, s, pid, m) && Holds(Do(limits, s, pid, m), q, i, slot)
    ensures Holds(s, q, i, slot)
            || (m.TryOne? && q == pid && slot in Do(limits, s, pid, m).locks && Do(limits, s, pid, m).locks[slot] == q)
  {
    match m
    case Start(want, waits) =>
    case TryOne =>
    case GoRound(_) =>
    case Finish =>
    case Release =>
    case Crash =>
  }

  /** What a process holds besides the slot it gives back is another slot. */
  lemma OthersStay(limits: map<Provider, nat>, s: State, pid: Pid, q: Pid, i: nat, slot: Slot)
    requires Inv(limits, s) && Enabled(limits, s, pid, Release) && s.procs[pid].held != []
    requires Holds(s, q, i, slot) && (q == pid ==> i < |s.procs[pid].held| - 1)
    ensures var p := s.procs[pid]; slot != Slot(p.want[|p.held| - 1], p.held[|p.held| - 1])
  {
    var p := s.procs[pid];
    assert Proper(limits, p);
    var last := |p.held| - 1;
    assert Holds(s, pid, last, Slot(p.want[last], p.held[last]));
    assert q == pid ==> p.want[i] < p.want[last];
  }

  lemma HolderLocked(limits: map<Provider, nat>, s: State, pid: Pid, m: Move, q: Pid, i: nat, slot: Slot)
    requires Inv(limits, s) && Enabled(limits, s, pid, m) && Holds(Do(limits, s, pid, m), q, i, slot)
    ensures var s' := Do(limits, s, pid, m); slot in s'.locks && s'.locks[slot] == q
  {
    HeldBefore(limits, s, pid, m, q, i, slot);
    if Holds(s, q, i, slot) {
      assert slot in s.locks && s.locks[slot] == q;
      if m.Release? && s.procs[pid].held != [] {
        OthersStay(limits, s, pid, q, i, slot);
      }
    }
  }

  lemma KernelAgrees(limits: map<Provider, nat>, s: State, pid: Pid, m: Move, slot: Slot)
    requires Inv(limits, s) && Enabled(limits, s, pid, m) && slot in Do(limits, s, pid, m).locks
    ensures var s' := Do(limits, s, pid, m); exists i: nat :: Holds(s', s'.locks[slot], i, slot)
  {
    var s' := Do(limits, s, pid, m);
    if slot in s.locks {
      var i: nat :| Holds(s, s.locks[slot], i, slot);
      StillHolds(limits, s, pid, m, i, slot);
    } else {
      assert m.TryOne?;
      assert Holds(s', pid, |s.procs[pid].held|, slot);
    }
  }

  lemma StillHolds(limits: map<Provider, nat>, s: State, pid: Pid, m: Move, i: nat, slot: Slot)
    requires Enabled(limits, s, pid, m)
    requires slot in s.locks && slot in Do(limits, s, pid, m).locks && Holds(s, s.locks[slot], i, slot)
    ensures var s' := Do(limits, s, pid, m); Holds(s', s'.locks[slot], i, slot)
  {
    match m
    case Start(want, waits) =>
    case TryOne =>
    case GoRound(_) =>
    case Finish =>
    case Release =>
    case Crash =>
  }

  lemma {:induction false} ReachableInv(limits: map<Provider, nat>, states: seq<State>)
    requires Execution(limits, states)
    ensures Inv(limits, states[|states| - 1])
    decreases |states|
  {
    if |states| > 1 {
      var before := states[..|states| - 1];
      forall i | 0 <= i < |before| - 1 ensures Next(limits, before[i], before[i + 1]) {
        assert Next(limits, states[i], states[i + 1]);
      }
      ReachableInv(limits, before);
      var s, s' := states[|states| - 2], states[|states| - 1];
      assert Next(limits, s, s');
      var pid, m :| Enabled(limits, s, pid, m) && s' == Do(limits, s, pid, m);
      DoKeeps(limits, s, pid, m);
    }
  }

  // ----- safety -------------------------------------------------------------------------------

  /** In every reachable state a running process holds a slot of each provider it asked for, within the
      limit, and the kernel says so. */
  lemma RunsWithAll(limits: map<Provider, nat>, states: seq<State>, pid: Pid, i: nat)
    requires Execution(limits, states)
    requires var s := states[|states| - 1];
             pid in s.procs && s.procs[pid].phase.Running? && i < |s.procs[pid].want|
    ensures var s := states[|states| - 1];
            exists n :: s.procs[pid].want[i] in limits && 1 <= n <= limits[s.procs[pid].want[i]]
                        && Slot(s.procs[pid].want[i], n) in s.locks
                        && s.locks[Slot(s.procs[pid].want[i], n)] == pid
  {
    var s := states[|states| - 1];
    ReachableInv(limits, states);
    var p := s.procs[pid];
    assert Proper(limits, p) && p.want[i] in p.want;
    assert Holds(s, pid, i, Slot(p.want[i], p.held[i]));
  }

  // ----- who is refused -------------------------------------------------------------------------

  datatype Act = Act(pid: Pid, move: Move)

  /** An execution with the moves that made it. */
  predicate Made(limits: map<Provider, nat>, states: seq<State>, turns: seq<Act>) {
    && |states| == |turns| + 1 && states[0] == State(map[], map[])
    && forall i | 0 <= i < |turns| ::
         && Enabled(limits, states[i], turns[i].pid, turns[i].move)
         && states[i + 1] == Do(limits, states[i], turns[i].pid, turns[i].move)
  }

  /** The process was in its block at some moment up to `n`. */
  predicate Ran(states: seq<State>, pid: Pid, n: nat) {
    exists i | 0 <= i <= n && i < |states| :: pid in states[i].procs && states[i].procs[pid].phase.Running?
  }

  /** A process that waits for providers none of which is switched off, and whose deadline never passes, is
      not refused: what it gives back it gives back after it ran. */
  lemma {:induction false} PatientIsServed(limits: map<Provider, nat>, states: seq<State>, turns: seq<Act>, pid: Pid,
                                           n: nat)
    requires Made(limits, states, turns) && n < |states| && pid in states[n].procs
    requires states[n].procs[pid].phase.Releasing? || states[n].procs[pid].phase.Done?
    requires states[n].procs[pid].waits
    requires forall q | q in states[n].procs[pid].want :: q in limits && limits[q] > 0
    requires forall i | 0 <= i < n :: turns[i] != Act(pid, GoRound(true))
    ensures Ran(states, pid, n)
    decreases n
  {
    assert n > 0;
    var s, turn := states[n - 1], turns[n - 1];
    assert states[n - 1 + 1] == Do(limits, s, turn.pid, turn.move);
    if turn != Act(pid, Finish) {
      NotServedYet(limits, s, pid, turn);
      PatientIsServed(limits, states, turns, pid, n - 1);
    }
  }

  lemma NotServedYet(limits: map<Provider, nat>, s: State, pid: Pid, turn: Act)
    requires Enabled(limits, s, turn.pid, turn.move) && turn != Act(pid, Finish) && turn != Act(pid, GoRound(true))
    requires var s' := Do(limits, s, turn.pid, turn.move);
             && pid in s'.procs && (s'.procs[pid].phase.Releasing? || s'.procs[pid].phase.Done?)
             && s'.procs[pid].waits && forall q | q in s'.procs[pid].want :: q in limits && limits[q] > 0
    ensures pid in s.procs && (s.procs[pid].phase.Releasing? || s.procs[pid].phase.Done?)
    ensures s.procs[pid].waits && s.procs[pid].want == Do(limits, s, turn.pid, turn.move).procs[pid].want
  {
    match turn.move
    case Start(want, waits) =>
    case TryOne =>
    case GoRound(_) =>
    case Finish =>
    case Release =>
    case Crash =>
  }

  /** One that does not wait, or asks for a provider that is switched off, gives up at the end of its
      first scan; one that waits gives up there only when its deadline has passed or the provider is
      switched off, and else scans again with what it holds. */
  lemma RefusedExactly(limits: map<Provider, nat>, s: State, pid: Pid, expired: bool)
    requires Enabled(limits, s, pid, GoRound(expired))
    ensures var p, s' := s.procs[pid], Do(limits, s, pid, GoRound(expired));
            && s'.locks == s.locks && s'.procs[pid].held == p.held
            && (s'.procs[pid].phase == Releasing <==> !p.waits || expired || limits[p.want[|p.held|]] == 0)
            && (s'.procs[pid].phase != Releasing ==> s'.procs[pid].phase == Scanning(1))
  {}

  /** In every reachable state, no slot is held by two processes, nor twice by one. */
  lemma NoSlotHeldTwice(limits: map<Provider, nat>, states: seq<State>, p: Pid, i: nat, q: Pid, j: nat, slot: Slot)
    requires Execution(limits, states)
    requires var s := states[|states| - 1]; Holds(s, p, i, slot) && Holds(s, q, j, slot)
    ensures p == q && i == j
  {
    var s := states[|states| - 1];
    ReachableInv(limits, states);
    assert p == q;
    assert Proper(limits, s.procs[p]);
    SameProvider(s.procs[p].want, i, j);
  }

  lemma SameProvider(want: seq<Provider>, i: nat, j: nat)
    requires Sorted(want) && i < |want| && j < |want| && want[i] == want[j]
    ensures i == j
  {}

  /** The processes that hold one of the first `k` slots of a provider. */
  ghost function Holders(s: State, provider: Provider, k: nat): set<Pid> {
    set n: nat | 1 <= n <= k && Slot(provider, n) in s.locks :: s.locks[Slot(provider, n)]
  }

  lemma {:induction false} FewHolders(s: State, provider: Provider, k: nat)
    ensures |Holders(s, provider, k)| <= k
    decreases k
  {
    if k == 0 {
      assert Holders(s, provider, 0) == {};
    } else {
      FewHolders(s, provider, k - 1);
      var slot := Slot(provider, k);
      if slot in s.locks {
        assert Holders(s, provider, k) == Holders(s, provider, k - 1) + {s.locks[slot]};
      } else {
        assert Holders(s, provider, k) == Holders(s, provider, k - 1);
      }
    }
  }

  /** In every reachable state a limit of L admits at most L holders. */
  lemma LimitRespected(limits: map<Provider, nat>, states: seq<State>, provider: Provider, pids: set<Pid>)
    requires Execution(limits, states) && provider in limits
    requires var s := states[|states| - 1];
             forall p | p in pids :: exists i: nat, n: nat :: Holds(s, p, i, Slot(provider, n))
    ensures |pids| <= limits[provider]
  {
    var s := states[|states| - 1];
    ReachableInv(limits, states);
    var holders := Holders(s, provider, limits[provider]);
    forall p | p in pids ensures p in holders {
      var i: nat, n: nat :| Holds(s, p, i, Slot(provider, n));
      assert Proper(limits, s.procs[p]);
      assert s.locks[Slot(provider, n)] == p;
    }
    FewHolders(s, provider, limits[provider]);
    assert pids + (holders - pids) == holders;
  }

  // ----- progress -----------------------------------------------------------------------------

  predicate FreeSlot(limits: map<Provider, nat>, s: State, provider: Provider, n: nat) {
    provider in limits && 1 <= n <= limits[provider] && Slot(provider, n) !in s.locks
  }

  /** The process is done waiting: it runs, it is giving slots back, or a slot it asks for is free. */
  ghost predicate CanAct(limits: map<Provider, nat>, s: State, pid: Pid) {
    && pid in s.procs
    && var p := s.procs[pid];
    p.phase.Running? || p.phase.Releasing?
    || (Asking(limits, p) && exists n :: FreeSlot(limits, s, Asked(p), n))
  }

  function Above(limits: map<Provider, nat>, provider: Provider): set<Provider> {
    set x | x in limits && provider < x
  }

  /** The provider a process asks for, if any. */
  function Turn(s: State, pid: Pid): Provider {
    if pid in s.procs && |s.procs[pid].held| < |s.procs[pid].want| then Asked(s.procs[pid]) else 0
  }

  /** Because providers are taken in sorted order, whoever waits, somebody can act: the holder of
      what it waits for either can act itself or waits for a later provider. */
  lemma SomebodyCanAct(limits: map<Provider, nat>, s: State, pid: Pid) returns (q: Pid)
    requires Inv(limits, s) && pid in s.procs && s.procs[pid].phase.Scanning?
    requires forall x | x in limits :: limits[x] >= 1
    ensures CanAct(limits, s, q)
    decreases Above(limits, Turn(s, pid))
  {
    var p := s.procs[pid];
    assert Proper(limits, p);
    if n :| FreeSlot(limits, s, Asked(p), n) {
      return pid;
    }
    var slot := Slot(Asked(p), 1);
    assert !FreeSlot(limits, s, Asked(p), 1);
    q := s.locks[slot];
    var i: nat :| Holds(s, q, i, slot);
    var h := s.procs[q];
    assert Proper(limits, h);
    if h.phase.Scanning? {
      assert h.want[i] < h.want[|h.held|];
      assert Asked(h) in Above(limits, Asked(p)) && Asked(h) !in Above(limits, Asked(h));
      q := SomebodyCanAct(limits, s, q);
    }
  }

  /** `s'` can be reached from `s`. */
  ghost predicate Leads(limits: map<Provider, nat>, s: State, s': State) {
    exists path :: Path(limits, path, s, s')
  }

  ghost predicate Path(limits: map<Provider, nat>, path: seq<State>, s: State, s': State) {
    && path != [] && path[0] == s && path[|path| - 1] == s'
    && forall i | 0 <= i < |path| - 1 :: Next(limits, path[i], path[i + 1])
  }

  lemma LeadsNext(limits: map<Provider, nat>, s: State, pid: Pid, m: Move, s'': State)
    requires Enabled(limits, s, pid, m) && Leads(limits, Do(limits, s, pid, m), s'')
    ensures Leads(limits, s, s'')
  {
    var s' := Do(limits, s, pid, m);
    var path :| Path(limits, path, s', s'');
    var longer := [s] + path;
    forall i | 0 <= i < |longer| - 1 ensures Next(limits, longer[i], longer[i + 1]) {
      if i == 0 {
        assert Next(limits, s, s');
      } else {
        assert Next(limits, path[i - 1], path[i]);
      }
    }
    assert Path(limits, longer, s, s'');
  }

  lemma LeadsSelf(limits: map<Provider, nat>, s: State)
    ensures Leads(limits, s, s)
  {
    assert Path(limits, [s], s, s);
  }

  lemma LeadsTransitive(limits: map<Provider, nat>, a: State, b: State, c: State)
    requires Leads(limits, a, b) && Leads(limits, b, c)
    ensures Leads(limits, a, c)
  {
    var p :| Path(limits, p, a, b);
    var q :| Path(limits, q, b, c);
    var r := p + q[1..];
    forall i | 0 <= i < |r| - 1 ensures Next(limits, r[i], r[i + 1]) {
      if i < |p| - 1 {
        assert Next(limits, p[i], p[i + 1]);
      } else {
        assert Next(limits, q[i - |p| + 1], q[i - |p| + 2]);
      }
    }
    assert Path(limits, r, a, c);
  }

  /** A whole scan is a run of single tries: when nobody else moves, it ends with the lowest free slot. */
  lemma {:induction false} ScanTakesLowest(limits: map<Provider, nat>, s: State, pid: Pid, n: nat)
    requires pid in s.procs && Asking(limits, s.procs[pid]) && 1 <= s.procs[pid].phase.next <= n
    requires FreeSlot(limits, s, Asked(s.procs[pid]), n)
    requires forall k | s.procs[pid].phase.next <= k < n :: !FreeSlot(limits, s, Asked(s.procs[pid]), k)
    ensures var p := s.procs[pid];
            var held := p.held + [n];
            Leads(limits, s, State(s.locks[Slot(Asked(p), n) := pid],
                                   s.procs[pid := p.(held := held, phase := Begin(p.want, held))]))
    decreases n - s.procs[pid].phase.next
  {
    var p := s.procs[pid];
    var held := p.held + [n];
    var end := State(s.locks[Slot(Asked(p), n) := pid], s.procs[pid := p.(held := held, phase := Begin(p.want, held))]);
    var next := Do(limits, s, pid, TryOne);
    if p.phase.next == n {
      LeadsSelf(limits, next);
    } else {
      assert !FreeSlot(limits, s, Asked(p), p.phase.next);
      forall k | next.procs[pid].phase.next <= k < n ensures !FreeSlot(limits, next, Asked(next.procs[pid]), k) {
        assert !FreeSlot(limits, s, Asked(p), k);
      }
      ScanTakesLowest(limits, next, pid, n);
      assert next.procs[pid := p.(held := held, phase := Begin(p.want, held))] == end.procs;
    }
    LeadsNext(limits, s, pid, TryOne, end);
  }

  /** How far a process is from being done. */
  function Work(p: Proc): nat {
    if p.phase.Scanning? then (if |p.held| <= |p.want| then 2 * |p.want| - |p.held| else 0) + 3
    else if p.phase.Running? then |p.want| + 2
    else if p.phase.Releasing? then |p.held| + 1
    else 0
  }

  /** Only `pid` moved, and it came closer to being done. */
  ghost predicate Closer(s: State, s': State, pid: Pid) {
    && pid in s.procs && s'.procs.Keys == s.procs.Keys && Work(s'.procs[pid]) < Work(s.procs[pid])
    && forall q | q in s.procs && q != pid :: s'.procs[q] == s.procs[q]
  }

  /** The files to try before the scan reaches slot `n`, in this round or the next. */
  function Ahead(limits: map<Provider, nat>, s: State, pid: Pid, n: nat): nat {
    if pid !in s.procs || !Asking(limits, s.procs[pid]) then 0
    else
      var next, limit := s.procs[pid].phase.next, limits[Asked(s.procs[pid])];
      if next <= n then n - next
      else if next <= limit then n + 1 + limit - next
      else n
  }

  /** The scan moved on, and nothing else changed. */
  ghost predicate Rescanned(s: State, s': State, pid: Pid) {
    && pid in s.procs && s'.locks == s.locks && s'.procs.Keys == s.procs.Keys && s'.procs[pid].phase.Scanning?
    && s'.procs[pid] == s.procs[pid].(phase := s'.procs[pid].phase)
    && forall q | q in s.procs && q != pid :: s'.procs[q] == s.procs[q]
  }

  lemma TryStep(limits: map<Provider, nat>, s: State, pid: Pid, n: nat)
    requires Inv(limits, s) && Enabled(limits, s, pid, TryOne)
    requires FreeSlot(limits, s, Asked(s.procs[pid]), n)
    ensures var s' := Do(limits, s, pid, TryOne);
            Closer(s, s', pid) || (Rescanned(s, s', pid) && Ahead(limits, s', pid, n) < Ahead(limits, s, pid, n))
  {
    assert Proper(limits, s.procs[pid]);
  }

  lemma RoundStep(limits: map<Provider, nat>, s: State, pid: Pid, n: nat)
    requires Inv(limits, s) && Enabled(limits, s, pid, GoRound(false))
    requires FreeSlot(limits, s, Asked(s.procs[pid]), n)
    ensures var s' := Do(limits, s, pid, GoRound(false));
            Closer(s, s', pid) || (Rescanned(s, s', pid) && Ahead(limits, s', pid, n) < Ahead(limits, s, pid, n))
  {
    assert Proper(limits, s.procs[pid]);
  }

  lemma ScanStep(limits: map<Provider, nat>, s: State, pid: Pid, n: nat) returns (m: Move)
    requires Inv(limits, s) && pid in s.procs && Asking(limits, s.procs[pid])
    requires FreeSlot(limits, s, Asked(s.procs[pid]), n)
    ensures Enabled(limits, s, pid, m)
    ensures var s' := Do(limits, s, pid, m);
            Closer(s, s', pid) || (Rescanned(s, s', pid) && Ahead(limits, s', pid, n) < Ahead(limits, s, pid, n))
  {
    if s.procs[pid].phase.next <= limits[Asked(s.procs[pid])] {
      m := TryOne;
      TryStep(limits, s, pid, n);
    } else {
      m := GoRound(false);
      RoundStep(limits, s, pid, n);
    }
  }

  /** Scanning, sleeping and starting over, a process whose slot stays free gets one. */
  lemma Acquires(limits: map<Provider, nat>, s: State, pid: Pid, n: nat) returns (s': State)
    requires Inv(limits, s) && pid in s.procs && Asking(limits, s.procs[pid])
    requires FreeSlot(limits, s, Asked(s.procs[pid]), n)
    ensures Leads(limits, s, s') && Inv(limits, s') && Closer(s, s', pid)
    decreases Ahead(limits, s, pid, n)
  {
    var m := ScanStep(limits, s, pid, n);
    var next := Do(limits, s, pid, m);
    DoKeeps(limits, s, pid, m);
    if Closer(s, next, pid) {
      s' := next;
      LeadsSelf(limits, s');
    } else {
      s' := Acquires(limits, next, pid, n);
    }
    LeadsNext(limits, s, pid, m, s');
  }

  lemma FinishOrRelease(limits: map<Provider, nat>, s: State, pid: Pid) returns (m: Move)
    requires pid in s.procs && Proper(limits, s.procs[pid])
    requires s.procs[pid].phase.Running? || s.procs[pid].phase.Releasing?
    ensures Enabled(limits, s, pid, m) && Closer(s, Do(limits, s, pid, m), pid)
  {
    m := if s.procs[pid].phase.Running? then Finish else Release;
  }

  lemma Advance(limits: map<Provider, nat>, s: State, pid: Pid) returns (s': State)
    requires Inv(limits, s) && CanAct(limits, s, pid)
    ensures Leads(limits, s, s') && Inv(limits, s') && Closer(s, s', pid)
  {
    var p := s.procs[pid];
    assert Proper(limits, p);
    if p.phase.Running? || p.phase.Releasing? {
      var m := FinishOrRelease(limits, s, pid);
      s' := Do(limits, s, pid, m);
      DoKeeps(limits, s, pid, m);
      LeadsSelf(limits, s');
      LeadsNext(limits, s, pid, m, s');
    } else {
      var n :| FreeSlot(limits, s, Asked(p), n);
      s' := Acquires(limits, s, pid, n);
    }
  }

  function TotalWork(s: State, pids: seq<Pid>): nat {
    if pids == [] then 0
    else TotalWork(s, pids[1..]) + if pids[0] in s.procs then Work(s.procs[pids[0]]) else 0
  }

  lemma {:induction false} TotalWorkDrops(s: State, s': State, pid: Pid, pids: seq<Pid>)
    requires Closer(s, s', pid)
    ensures TotalWork(s', pids) <= TotalWork(s, pids) && (pid in pids ==> TotalWork(s', pids) < TotalWork(s, pids))
    decreases |pids|
  {
    if pids != [] {
      TotalWorkDrops(s, s', pid, pids[1..]);
    }
  }

  predicate Over(s: State) {
    forall p | p in s.procs :: s.procs[p].phase.Done? || s.procs[p].phase.Dead?
  }

  /** There is no deadlock, however many processes wait: with every limit at least 1, any reachable
      state leads to one where every process is done. */
  lemma EverybodyCanFinish(limits: map<Provider, nat>, s: State, pids: seq<Pid>) returns (s': State)
    requires Inv(limits, s) && forall x | x in limits :: limits[x] >= 1
    requires forall p | p in s.procs :: p in pids
    ensures Leads(limits, s, s') && Over(s')
    decreases TotalWork(s, pids)
  {
    if Over(s) {
      s' := s;
      LeadsSelf(limits, s);
    } else {
      var pid :| pid in s.procs && !(s.procs[pid].phase.Done? || s.procs[pid].phase.Dead?);
      if s.procs[pid].phase.Scanning? {
        pid := SomebodyCanAct(limits, s, pid);
      }
      var next := Advance(limits, s, pid);
      TotalWorkDrops(s, next, pid, pids);
      s' := EverybodyCanFinish(limits, next, pids);
      LeadsTransitive(limits, s, next, s');
    }
  }
}
