/** One process taking and giving back run slots. The kernel's lock table is shared; while a process
    sleeps the others may take and free any slot that is not its own. */
module Slots {
  import opened Options
  import opened SlotProtocol

  class Kernel {
    var locks: map<Slot, Pid>

    constructor ()
      ensures locks == map[]
    {
      locks := map[];
    }
  }

  /** The lock files a process holds. */
  function Mine(locks: map<Slot, Pid>, me: Pid): set<Slot> {
    set x | x in locks && locks[x] == me
  }

  predicate Free(locks: map<Slot, Pid>, provider: Provider, limit: nat, n: nat) {
    1 <= n <= limit && Slot(provider, n) !in locks
  }

  /** Every slot of the provider is taken; so it is when the limit is 0. */
  predicate AllTaken(locks: map<Slot, Pid>, provider: Provider, limit: nat) {
    forall n | 1 <= n <= limit :: Slot(provider, n) in locks
  }

  /** As many tries as the waiting allows, each of which found every slot taken. */
  predicate TriedAll(tables: seq<map<Slot, Pid>>, provider: Provider, limit: nat, wait: Option<nat>) {
    limit > 0 ==> |tables| == wait.GetOr(0) + 1 && forall t | t in tables :: AllTaken(t, provider, limit)
  }

  class RunSlot {
    const kernel: Kernel
    const provider: Provider
    const limit: nat
    const me: Pid

    /** The slot held, 0 when none is. */
    var index: nat

    constructor (kernel: Kernel, provider: Provider, limit: nat, me: Pid)
      ensures this.kernel == kernel && this.provider == provider && this.limit == limit && this.me == me && index == 0
    {
      this.kernel, this.provider, this.limit, this.me, index := kernel, provider, limit, me, 0;
    }

    function Lock(): Slot
      reads this
    {
      Slot(provider, index)
    }

    /** What this object believes it holds, the kernel agrees with. */
    predicate Valid()
      reads this, kernel
    {
      index != 0 ==> index <= limit && Lock() in kernel.locks && kernel.locks[Lock()] == me
    }

    method TryOne(n: nat) returns (ok: bool)
      requires index == 0 && 1 <= n <= limit
      modifies this`index, kernel`locks
      ensures ok <==> Free(old(kernel.locks), provider, limit, n)
      ensures ok ==> index == n && kernel.locks == old(kernel.locks)[Slot(provider, n) := me]
      ensures !ok ==> index == 0 && kernel.locks == old(kernel.locks)
    {
      var slot := Slot(provider, n);
      if slot in kernel.locks {
        return false;
      }
      kernel.locks := kernel.locks[slot := me];
      index := n;
      return true;
    }

    /** Takes the lowest free slot; fails only when all are taken, and then changes nothing. */
    method TryAll() returns (ok: bool)
      requires index == 0
      modifies this`index, kernel`locks
      ensures ok ==> Free(old(kernel.locks), provider, limit, index)
      ensures ok ==> kernel.locks == old(kernel.locks)[Lock() := me]
      ensures ok ==> forall n | 1 <= n < index :: Slot(provider, n) in old(kernel.locks)
      ensures !ok ==> index == 0 && kernel.locks == old(kernel.locks)
      ensures !ok ==> AllTaken(kernel.locks, provider, limit)
    {
      var n := 1;
      while n <= limit
        invariant 1 <= n <= limit + 1
        invariant index == 0 && kernel.locks == old(kernel.locks)
        invariant forall k | 1 <= k < n :: Slot(provider, k) in old(kernel.locks)
      {
        ok := TryOne(n);
        if ok {
          return;
        }
        n := n + 1;
      }
      return false;
    }

    /** `wait`: how many times to sleep and try again before the deadline; `None` does not wait. A
        limit of 0 refuses at once, however long the caller offered to wait. `tables` are the lock tables
        it found, one for every try. */
    method Acquire(wait: Option<nat>) returns (ok: bool, ghost tables: seq<map<Slot, Pid>>)
      requires Valid()
      modifies this`index, kernel`locks
      ensures Valid() && (ok <==> index != 0)
      ensures old(index) != 0 ==> ok && index == old(index) && kernel.locks == old(kernel.locks)
      ensures limit == 0 ==> !ok && kernel.locks == old(kernel.locks)
      ensures old(index) == 0 && ok ==> Lock() !in Mine(old(kernel.locks), me)
      ensures Mine(kernel.locks, me) ==
              if old(index) == 0 && ok then Mine(old(kernel.locks), me) + {Lock()} else Mine(old(kernel.locks), me)
      ensures wait == None && old(index) == 0 && ok ==> Lock() !in old(kernel.locks)
      ensures wait == None ==>
                kernel.locks == (if old(index) == 0 && ok then old(kernel.locks)[Lock() := me] else old(kernel.locks))
      ensures !ok ==> AllTaken(kernel.locks, provider, limit)
      ensures wait == None && limit > 0 && old(index) == 0 ==>
                (ok <==> exists n :: Free(old(kernel.locks), provider, limit, n))
      ensures old(index) == 0 && limit > 0 ==> Tried(old(kernel.locks), tables, ok, wait)
      ensures old(index) == 0 && limit > 0 ==>
                kernel.locks == var seen := tables[|tables| - 1]; if ok then seen[Lock() := me] else seen
    {
      tables := [];
      if index != 0 {
        return true, tables;
      }
      if limit == 0 {
        return false, tables;
      }
      var left := wait.GetOr(0);
      while true
        invariant index == 0 && Mine(kernel.locks, me) == Mine(old(kernel.locks), me)
        invariant |tables| + left == wait.GetOr(0)
        invariant tables == [] ==> kernel.locks == old(kernel.locks)
        invariant tables != [] ==> tables[0] == old(kernel.locks)
        invariant forall t | t in tables :: AllTaken(t, provider, limit) && Mine(t, me) == Mine(old(kernel.locks), me)
        decreases left
      {
        tables := tables + [kernel.locks];
        ok := TryAll();
        if ok {
          return;
        }
        if left == 0 {
          return false, tables;
        }
        left := left - 1;
        Sleep(kernel, me);
      }
    }

    /** It tried until the first table with a free slot, of which it took the lowest, and gave up only
        after the last try it may make. */
    ghost predicate Tried(locks: map<Slot, Pid>, tables: seq<map<Slot, Pid>>, ok: bool, wait: Option<nat>)
      reads this
    {
      && 0 < |tables| <= wait.GetOr(0) + 1 && tables[0] == locks
      && (forall t | t in tables :: Mine(t, me) == Mine(locks, me))
      && (forall i | 0 <= i < |tables| - 1 :: AllTaken(tables[i], provider, limit))
      && var seen := tables[|tables| - 1];
         if ok then Free(seen, provider, limit, index) && forall n | 1 <= n < index :: Slot(provider, n) in seen
         else |tables| == wait.GetOr(0) + 1 && AllTaken(seen, provider, limit)
    }

    /** Gives the slot back; nothing happens when none is held. */
    method Release()
      requires Valid()
      modifies this`index, kernel`locks
      ensures index == 0
      ensures kernel.locks == if old(index) == 0 then old(kernel.locks) else old(kernel.locks) - {old(Lock())}
    {
      if index == 0 {
        return;
      }
      kernel.locks := kernel.locks - {Lock()};
      index := 0;
    }
  }

  /** The other processes move; what this process holds stays held, and nobody else can take it. */
  method Sleep(kernel: Kernel, me: Pid)
    modifies kernel`locks
    ensures Mine(kernel.locks, me) == Mine(old(kernel.locks), me)
  {
    ghost var before := kernel.locks;
    var locks :| Mine(locks, me) == Mine(kernel.locks, me);
    kernel.locks := locks;
  }

  // ----- one slot per capped provider -----------------------------------------------------------

  lemma HeadOrTail(s: seq<Provider>)
    requires s != []
    ensures forall x :: x in s <==> x == s[0] || x in s[1..]
  {
    assert s == [s[0]] + s[1..];
  }

  lemma Prepend(p: Provider, rest: seq<Provider>)
    requires Sorted(rest) && forall x | x in rest :: p < x
    ensures Sorted([p] + rest)
  {
    assert forall i | 0 <= i < |rest| :: rest[i] in rest;
  }

  function Insert(p: Provider, sorted: seq<Provider>): (r: seq<Provider>)
    requires Sorted(sorted)
    ensures Sorted(r) && forall x :: x in r <==> x == p || x in sorted
  {
    if sorted == [] then [p]
    else
      HeadOrTail(sorted);
      if p < sorted[0] then [p] + sorted
      else if p == sorted[0] then sorted
      else
        var rest := Insert(p, sorted[1..]);
        assert forall x | x in rest :: sorted[0] < x;
        Prepend(sorted[0], rest);
        [sorted[0]] + rest
  }

  /** The providers to take a slot of: those with a limit, each once, in sorted order. */
  function Capped(providers: seq<Provider>, limits: map<Provider, nat>): (r: seq<Provider>)
    ensures Sorted(r) && forall x :: x in r <==> x in providers && x in limits
  {
    if providers == [] then []
    else
      var rest := Capped(providers[1..], limits);
      if providers[0] in limits then Insert(providers[0], rest) else rest
  }

  /** The objects hold exactly these slots, each object one of them. */
  ghost predicate HeldBy(kernel: Kernel, me: Pid, slots: seq<Slot>, held: seq<RunSlot>)
    reads held
  {
    && |slots| == |held|
    && (forall i | 0 <= i < |held| :: held[i].kernel == kernel && held[i].me == me && held[i].Lock() == slots[i])
    && (forall i | 0 <= i < |held| :: 1 <= held[i].index <= held[i].limit)
    && forall i, j | 0 <= i < j < |held| :: held[i] != held[j]
  }

  /** One slot within the limit for each of the first providers wanted, in their order. */
  ghost predicate InOrder(want: seq<Provider>, limits: map<Provider, nat>, slots: seq<Slot>) {
    && |slots| <= |want|
    && forall i | 0 <= i < |slots| ::
         slots[i].provider == want[i] && want[i] in limits && 1 <= slots[i].index <= limits[want[i]]
  }

  ghost function Elements(slots: seq<Slot>): set<Slot> {
    set x | x in slots
  }

  /** The table once a process has taken some more slots. */
  ghost function Taken(locks: map<Slot, Pid>, slots: set<Slot>, me: Pid): map<Slot, Pid> {
    locks + map x | x in slots :: me
  }

  /** The process holds `slots` on top of what it held; unless it slept, nothing else changed. */
  ghost predicate Gained(locks0: map<Slot, Pid>, locks: map<Slot, Pid>, slots: set<Slot>, me: Pid, wait: Option<nat>) {
    && Mine(locks, me) == Mine(locks0, me) + slots && Mine(locks0, me) !! slots
    && (wait == None ==> locks == Taken(locks0, slots, me) && slots !! locks0.Keys)
  }

  lemma GainedBack(locks0: map<Slot, Pid>, locks: map<Slot, Pid>, slots: set<Slot>, me: Pid, wait: Option<nat>)
    requires Gained(locks0, locks, slots, me, wait)
    ensures Gained(locks0, locks - slots, {}, me, wait)
  {
    assert forall x | x in Mine(locks - slots, me) :: x in Mine(locks, me);
    assert forall x | x in Mine(locks0, me) :: x in Mine(locks, me) && x !in slots;
  }

  lemma GainedMore(locks0: map<Slot, Pid>, locks1: map<Slot, Pid>, locks: map<Slot, Pid>,
                   slots: set<Slot>, more: set<Slot>, me: Pid, wait: Option<nat>)
    requires Gained(locks0, locks1, slots, me, wait) && Gained(locks1, locks, more, me, wait)
    ensures Gained(locks0, locks, slots + more, me, wait)
  {
    if wait == None {
      assert Taken(Taken(locks0, slots, me), more, me) == Taken(locks0, slots + more, me);
      assert slots <= locks1.Keys;
    }
  }

  /** Tries a slot of the next provider wanted. */
  method TakeNext(kernel: Kernel, me: Pid, wait: Option<nat>, provider: Provider, limit: nat,
                  ghost locks0: map<Slot, Pid>, ghost slots: seq<Slot>)
    returns (ok: bool, slot: RunSlot, ghost tables: seq<map<Slot, Pid>>)
    requires Gained(locks0, kernel.locks, Elements(slots), me, wait)
    modifies kernel
    ensures fresh(slot) && slot.kernel == kernel && slot.me == me && slot.provider == provider && slot.limit == limit
    ensures ok ==> 1 <= slot.index <= limit
    ensures Gained(locks0, kernel.locks, Elements(if ok then slots + [slot.Lock()] else slots), me, wait)
    ensures !ok ==> AllTaken(kernel.locks, provider, limit)
    ensures !ok ==> TriedAll(tables, provider, limit, wait)
  {
    ghost var locks1 := kernel.locks;
    slot := new RunSlot(kernel, provider, limit, me);
    ok, tables := slot.Acquire(wait);
    GainedMore(locks0, locks1, kernel.locks, Elements(slots), if ok then {slot.Lock()} else {}, me, wait);
    OneMore(slots, slot.Lock());
  }

  lemma HeldGrow(kernel: Kernel, me: Pid, slots: seq<Slot>, held: seq<RunSlot>, slot: RunSlot)
    requires HeldBy(kernel, me, slots, held) && slot !in held
    requires slot.kernel == kernel && slot.me == me && 1 <= slot.index <= slot.limit
    ensures HeldBy(kernel, me, slots + [slot.Lock()], held + [slot])
  {}

  lemma OneMore(slots: seq<Slot>, slot: Slot)
    ensures Elements(slots + [slot]) == Elements(slots) + {slot}
  {}

  lemma OneLess(locks: map<Slot, Pid>, me: Pid, slots: seq<Slot>, n: nat)
    requires n < |slots| && Elements(slots) <= Mine(locks, me)
    requires forall i, j | 0 <= i < j < |slots| :: slots[i] != slots[j]
    ensures var left := locks - Elements(slots[n + 1..]);
            slots[n] in left && left[slots[n]] == me && left - {slots[n]} == locks - Elements(slots[n..])
  {
    assert slots[n] in Elements(slots);
    assert slots[n..] == [slots[n]] + slots[n + 1..];
  }

  /** What the process holds in order is of other providers than the next one wanted. */
  lemma OthersHeld(want: seq<Provider>, limits: map<Provider, nat>, slots: seq<Slot>)
    requires Sorted(want) && InOrder(want, limits, slots) && |slots| < |want|
    ensures forall x | x in slots :: x.provider != want[|slots|]
  {}

  /** Not having slept, it was refused because of what was taken before. */
  lemma RefusedBefore(locks0: map<Slot, Pid>, locks: map<Slot, Pid>, want: seq<Provider>, limits: map<Provider, nat>,
                      slots: seq<Slot>, me: Pid)
    requires Sorted(want) && InOrder(want, limits, slots) && |slots| < |want| && want[|slots|] in limits
    requires locks == Taken(locks0, Elements(slots), me)
    requires AllTaken(locks, want[|slots|], limits[want[|slots|]])
    ensures AllTaken(locks0, want[|slots|], limits[want[|slots|]])
  {
    OthersHeld(want, limits, slots);
  }

  lemma RefusedAfter(locks: map<Slot, Pid>, want: seq<Provider>, limits: map<Provider, nat>, slots: seq<Slot>)
    requires Sorted(want) && InOrder(want, limits, slots) && |slots| < |want| && want[|slots|] in limits
    requires AllTaken(locks, want[|slots|], limits[want[|slots|]])
    ensures AllTaken(locks - Elements(slots), want[|slots|], limits[want[|slots|]])
  {
    OthersHeld(want, limits, slots);
  }

  /** Having got one of each, there was one of each. */
  lemma AllAdmitted(locks0: map<Slot, Pid>, want: seq<Provider>, limits: map<Provider, nat>, slots: seq<Slot>)
    requires InOrder(want, limits, slots) && |slots| == |want| && Elements(slots) !! locks0.Keys
    ensures forall p | p in want :: p in limits && !AllTaken(locks0, p, limits[p])
  {
    forall p | p in want ensures p in limits && !AllTaken(locks0, p, limits[p]) {
      var i :| 0 <= i < |want| && want[i] == p;
      assert slots[i] in Elements(slots) && slots[i] == Slot(p, slots[i].index);
    }
  }

  /** Takes a slot of each provider wanted, up to the first that is refused. */
  method TakeInOrder(kernel: Kernel, me: Pid, wait: Option<nat>, want: seq<Provider>, limits: map<Provider, nat>)
    returns (held: seq<RunSlot>, ghost slots: seq<Slot>, ghost tables: seq<map<Slot, Pid>>)
    requires forall p | p in want :: p in limits
    modifies kernel
    ensures fresh(held) && HeldBy(kernel, me, slots, held) && InOrder(want, limits, slots)
    ensures Gained(old(kernel.locks), kernel.locks, Elements(slots), me, wait)
    ensures |held| < |want| ==> AllTaken(kernel.locks, want[|held|], limits[want[|held|]])
    ensures |held| < |want| ==> TriedAll(tables, want[|held|], limits[want[|held|]], wait)
  {
    held, slots, tables := [], [], [];
    ghost var locks0 := kernel.locks;
    while |held| < |want|
      invariant fresh(held) && HeldBy(kernel, me, slots, held) && InOrder(want, limits, slots)
      invariant Gained(locks0, kernel.locks, Elements(slots), me, wait)
      decreases |want| - |held|
    {
      var ok, slot;
      ok, slot, tables := TakeNext(kernel, me, wait, want[|held|], limits[want[|held|]], locks0, slots);
      if !ok {
        return;
      }
      HeldGrow(kernel, me, slots, held, slot);
      held, slots := held + [slot], slots + [slot.Lock()];
    }
  }

  /** Takes one slot of every capped provider, in sorted order; when a later one is refused,
      everything taken before it is given back. It is refused only when every slot of some provider is
      taken; without waiting it succeeds exactly when each had a free one. */
  method AcquireSlots(kernel: Kernel, providers: seq<Provider>, limits: map<Provider, nat>, me: Pid, wait: Option<nat>)
    returns (ok: bool, held: seq<RunSlot>, ghost slots: seq<Slot>, ghost tables: seq<map<Slot, Pid>>)
    modifies kernel
    ensures fresh(held) && HeldBy(kernel, me, slots, held) && InOrder(Capped(providers, limits), limits, slots)
    ensures ok ==> |slots| == |Capped(providers, limits)|
    ensures !ok ==> slots == []
    ensures Gained(old(kernel.locks), kernel.locks, Elements(slots), me, wait)
    ensures (exists p :: p in providers && p in limits && limits[p] == 0) ==> !ok
    ensures !ok ==> exists p | p in providers && p in limits ::
              AllTaken(kernel.locks, p, limits[p]) && TriedAll(tables, p, limits[p], wait)
    ensures wait == None ==>
              (ok <==> forall p | p in providers && p in limits ::
                 exists n | 1 <= n <= limits[p] :: Slot(p, n) !in old(kernel.locks))
  {
    var want := Capped(providers, limits);
    held, slots, tables := TakeInOrder(kernel, me, wait, want, limits);
    ok := |held| == |want|;
    Admission(old(kernel.locks), kernel.locks, want, limits, slots, me, wait);
    if !ok {
      GainedBack(old(kernel.locks), kernel.locks, Elements(slots), me, wait);
      RefusedAfter(kernel.locks, want, limits, slots);
      assert want[|slots|] in providers;
      ReleaseAll(kernel, me, slots, held);
      held, slots := [], [];
    }
  }

  lemma Admission(locks0: map<Slot, Pid>, locks: map<Slot, Pid>, want: seq<Provider>, limits: map<Provider, nat>,
                  slots: seq<Slot>, me: Pid, wait: Option<nat>)
    requires Sorted(want) && InOrder(want, limits, slots) && Gained(locks0, locks, Elements(slots), me, wait)
    requires forall p | p in want :: p in limits
    requires |slots| < |want| ==> AllTaken(locks, want[|slots|], limits[want[|slots|]])
    ensures wait == None ==> (|slots| == |want| <==> forall p | p in want :: !AllTaken(locks0, p, limits[p]))
  {
    if wait == None {
      if |slots| == |want| {
        AllAdmitted(locks0, want, limits, slots);
      } else {
        RefusedBefore(locks0, locks, want, limits, slots, me);
        assert want[|slots|] in want;
      }
    }
  }

  /** Gives the slots back, last first. */
  method ReleaseAll(kernel: Kernel, me: Pid, ghost slots: seq<Slot>, held: seq<RunSlot>)
    requires HeldBy(kernel, me, slots, held) && Elements(slots) <= Mine(kernel.locks, me)
    requires forall i, j | 0 <= i < j < |slots| :: slots[i] != slots[j]
    modifies kernel, held
    ensures kernel.locks == old(kernel.locks) - Elements(slots)
    ensures forall i | 0 <= i < |held| :: held[i].index == 0
  {
    ghost var locks0 := kernel.locks;
    var n := |held|;
    while n > 0
      invariant 0 <= n <= |held|
      invariant forall i | 0 <= i < n :: held[i].index == slots[i].index
      invariant forall i | n <= i < |held| :: held[i].index == 0
      invariant kernel.locks == locks0 - Elements(slots[n..])
    {
      n := n - 1;
      OneLess(locks0, me, slots, n);
      held[n].Release();
    }
    assert slots[0..] == slots;
  }
}
