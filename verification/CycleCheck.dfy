/** The two depth-first searches over `needs`: the engine's, which stops at the first cycle, and
    the validator's, which goes on and collects them. */
module CycleCheck {
  import opened Options
  import opened Graphs

  datatype Mark = Grey | Black

  /** Marks, stack and finishing order of a search in progress. */
  ghost predicate Searching(needs: Needs, marks: map<Id, Mark>, stack: seq<Id>, done: seq<Id>) {
    && Closed(needs) && marks.Keys <= needs.Keys
    && Distinct(stack) && IsPath(needs, stack)
    && (forall s :: s in marks && marks[s] == Grey <==> s in stack)
    && (forall s :: s in marks && marks[s] == Black <==> s in done)
    && (forall s | s in done :: s in needs)
  }

  lemma Push(needs: Needs, marks: map<Id, Mark>, stack: seq<Id>, done: seq<Id>, sid: Id)
    requires Searching(needs, marks, stack, done) && sid in needs && sid !in marks
    requires stack != [] ==> sid in needs[stack[|stack| - 1]]
    ensures Searching(needs, marks[sid := Grey], stack + [sid], done)
  {
    PathAppend(needs, stack, [sid]);
    assert sid !in stack && sid !in done;
    assert forall x :: x in stack + [sid] <==> x in stack || x == sid;
    var m := marks[sid := Grey];
    assert Distinct(stack + [sid]);
    assert IsPath(needs, stack + [sid]);
    assert forall s :: s in m && m[s] == Grey <==> s in stack + [sid];
    assert forall s :: s in m && m[s] == Black <==> s in done;
  }

  lemma Pop(needs: Needs, marks: map<Id, Mark>, stack: seq<Id>, done: seq<Id>, sid: Id)
    requires Searching(needs, marks, stack + [sid], done)
    ensures Searching(needs, marks[sid := Black], stack, done + [sid]) && sid !in done
  {
    var full := stack + [sid];
    assert full[|stack|] == sid && sid in full;
    forall i | 0 <= i < |stack| ensures stack[i] != sid && stack[i] in needs {
      assert full[i] == stack[i];
    }
    forall i | 0 <= i < |stack| - 1 ensures stack[i + 1] in needs[stack[i]] {
      assert full[i + 1] in needs[full[i]];
    }
    assert forall x :: x in full <==> x in stack || x == sid;
    assert sid !in stack && marks[sid] == Grey && sid !in done;
    var m := marks[sid := Black];
    forall i, j | 0 <= i < j < |stack| ensures stack[i] != stack[j] {
      assert full[i] != full[j];
    }
    assert forall s :: s in m && m[s] == Grey <==> s in stack;
    assert forall s :: s in m && m[s] == Black <==> s in done + [sid];
  }

  lemma SettleNext(needs: Needs, done: seq<Id>, sid: Id)
    requires NeedsEarlier(needs, done) && sid in needs && sid !in done
    requires forall j | 0 <= j < |needs[sid]| :: needs[sid][j] in done
    ensures NeedsEarlier(needs, done + [sid])
  {
    var next := done + [sid];
    forall i | 0 <= i < |next| ensures next[i] in needs && forall d | d in needs[next[i]] :: d in next[..i] {
      if i < |done| {
        assert next[..i] == done[..i];
      } else {
        assert next[..i] == done;
      }
    }
  }

  /** The first `i` needs are finished. */
  predicate DoneUpTo(done: seq<Id>, needs: seq<Id>, i: nat)
    requires i <= |needs|
  {
    forall j | 0 <= j < i :: needs[j] in done
  }

  lemma DoneNext(done: seq<Id>, later: seq<Id>, needs: seq<Id>, i: nat)
    requires i < |needs| && DoneUpTo(done, needs, i) && done <= later && needs[i] in later
    ensures DoneUpTo(later, needs, i + 1)
  {}

  class AcyclicCheck {
    const needs: Needs
    var marks: map<Id, Mark>
    var stack: seq<Id>
    ghost var done: seq<Id>

    ghost predicate Valid()
      reads this
    {
      Searching(needs, marks, stack, done) && NeedsEarlier(needs, done)
    }

    constructor (needs: Needs)
      requires Closed(needs)
      ensures Valid() && this.needs == needs && stack == [] && done == []
    {
      this.needs := needs;
      marks, stack, done := map[], [], [];
    }

    /** `visit`: the cycle it raises with, or nothing once `sid` and all it needs are done. */
    method Visit(sid: Id) returns (cycle: Option<seq<Id>>)
      requires Valid() && sid in needs
      requires stack != [] ==> sid in needs[stack[|stack| - 1]]
      modifies this
      ensures cycle.Some? ==> IsCycle(needs, cycle.value)
      ensures cycle.None? ==> Valid() && stack == old(stack) && old(done) <= done && sid in done
      ensures cycle.None? ==> old(marks.Keys) <= marks.Keys
      decreases needs.Keys - marks.Keys
    {
      if sid in marks {
        if marks[sid] == Grey {
          var i := Position(stack, sid);
          BackEdge(needs, stack, i, sid);
          return Some(stack[i..] + [sid]);
        }
        return None;
      }
      Enter(sid);
      ghost var marked := marks.Keys;
      for i := 0 to |needs[sid]|
        invariant Valid() && stack == old(stack) + [sid] && old(done) <= done
        invariant marked <= marks.Keys && DoneUpTo(done, needs[sid], i)
      {
        ghost var before := done;
        cycle := Visit(needs[sid][i]);
        if cycle.Some? {
          return;
        }
        DoneNext(before, done, needs[sid], i);
      }
      Leave(sid, old(stack));
      return None;
    }

    method Enter(sid: Id)
      requires Valid() && sid in needs && sid !in marks
      requires stack != [] ==> sid in needs[stack[|stack| - 1]]
      modifies this
      ensures Valid() && stack == old(stack) + [sid] && done == old(done)
      ensures marks == old(marks)[sid := Grey]
    {
      Push(needs, marks, stack, done, sid);
      marks := marks[sid := Grey];
      stack := stack + [sid];
    }

    method Leave(sid: Id, ghost below: seq<Id>)
      requires Valid() && stack == below + [sid] && sid in needs
      requires DoneUpTo(done, needs[sid], |needs[sid]|)
      modifies this
      ensures Valid() && stack == below && done == old(done) + [sid]
      ensures marks == old(marks)[sid := Black]
    {
      Pop(needs, marks, below, done, sid);
      SettleNext(needs, done, sid);
      stack := stack[..|stack| - 1];
      marks := marks[sid := Black];
      done := done + [sid];
    }
  }

  /** Raises exactly when `needs` has a cycle, and with a real one. */
  method CheckAcyclic(ids: seq<Id>, needs: Needs) returns (cycle: Option<seq<Id>>)
    requires Closed(needs) && Elements(ids) == needs.Keys
    ensures cycle.Some? <==> !Acyclic(needs)
    ensures cycle.Some? ==> IsCycle(needs, cycle.value)
  {
    var check := new AcyclicCheck(needs);
    for i := 0 to |ids|
      invariant check.Valid() && check.needs == needs && check.stack == [] && fresh(check)
      invariant forall j | 0 <= j < i :: ids[j] in check.done
    {
      assert ids[i] in Elements(ids);
      ghost var before := check.done;
      cycle := check.Visit(ids[i]);
      if cycle.Some? {
        return;
      }
      assert before <= check.done;
    }
    AllDone(ids, needs, check.done);
    TopologicalIsAcyclic(needs, check.done);
    return None;
  }

  lemma AllDone(ids: seq<Id>, needs: Needs, done: seq<Id>)
    requires Elements(ids) == needs.Keys && forall s | s in done :: s in needs
    requires forall j | 0 <= j < |ids| :: ids[j] in done
    ensures Elements(done) == needs.Keys
  {}

  /** The edge from `s` back to its need `d` closes one of these cycles. */
  predicate Closing(cycles: seq<seq<Id>>, s: Id, d: Id) {
    exists c | c in cycles :: |c| >= 2 && c[|c| - 2] == s && c[|c| - 1] == d
  }

  /** What each finished step needs finished before it, or closes a reported cycle. */
  predicate Covered(needs: Needs, cycles: seq<seq<Id>>, done: seq<Id>) {
    && Distinct(done)
    && forall i | 0 <= i < |done| :: done[i] in needs && Accounted(needs, cycles, done[i], done[..i])
  }

  predicate Accounted(needs: Needs, cycles: seq<seq<Id>>, s: Id, earlier: seq<Id>)
    requires s in needs
  {
    forall d | d in needs[s] :: d in earlier || Closing(cycles, s, d)
  }

  lemma ClosingMore(cycles: seq<seq<Id>>, more: seq<seq<Id>>)
    requires cycles <= more
    ensures forall s, d | Closing(cycles, s, d) :: Closing(more, s, d)
  {
    assert forall c | c in cycles :: c in more;
  }

  /** The first `i` needs of `s` are finished, or close a reported cycle. */
  predicate Explored(cycles: seq<seq<Id>>, done: seq<Id>, s: Id, needs: seq<Id>, i: nat)
    requires i <= |needs|
  {
    forall j | 0 <= j < i :: needs[j] in done || Closing(cycles, s, needs[j])
  }

  lemma ExploredNext(cycles: seq<seq<Id>>, more: seq<seq<Id>>, done: seq<Id>, later: seq<Id>, s: Id, needs: seq<Id>,
                     i: nat)
    requires i < |needs| && Explored(cycles, done, s, needs, i) && cycles <= more && done <= later
    requires needs[i] in later || Closing(more, s, needs[i])
    ensures Explored(more, later, s, needs, i + 1)
  {
    ClosingMore(cycles, more);
  }

  lemma CoveredMore(needs: Needs, cycles: seq<seq<Id>>, more: seq<seq<Id>>, done: seq<Id>)
    requires Covered(needs, cycles, done) && cycles <= more
    ensures Covered(needs, more, done)
  {
    ClosingMore(cycles, more);
  }

  lemma CoverNext(needs: Needs, cycles: seq<seq<Id>>, done: seq<Id>, sid: Id)
    requires Covered(needs, cycles, done) && sid in needs && sid !in done && Accounted(needs, cycles, sid, done)
    ensures Covered(needs, cycles, done + [sid])
  {
    var next := done + [sid];
    forall i | 0 <= i < |next| ensures next[i] in needs && Accounted(needs, cycles, next[i], next[..i]) {
      assert next[..i] == done[..i];
    }
  }

  /** Along a path without a closing edge the steps were finished ever earlier. */
  lemma {:induction false} Backwards(needs: Needs, cycles: seq<seq<Id>>, done: seq<Id>, c: seq<Id>, k: nat)
    requires Covered(needs, cycles, done) && Elements(done) == needs.Keys && IsPath(needs, c) && k < |c|
    requires forall i | 0 <= i < k :: !Closing(cycles, c[i], c[i + 1])
    ensures c[0] in done && c[k] in done && Position(done, c[k]) + k <= Position(done, c[0])
    decreases k
  {
    assert c[0] in Elements(done) && c[k] in Elements(done);
    if k > 0 {
      Backwards(needs, cycles, done, c, k - 1);
      var p := Position(done, c[k - 1]);
      assert c[k] in needs[done[p]] && c[k] in done[..p];
      assert exists q :: 0 <= q < p && done[q] == c[k];
    }
  }

  lemma CycleIsClosed(needs: Needs, cycles: seq<seq<Id>>, done: seq<Id>, c: seq<Id>)
    requires Covered(needs, cycles, done) && Elements(done) == needs.Keys && IsCycle(needs, c)
    ensures exists i | 0 <= i < |c| - 1 :: Closing(cycles, c[i], c[i + 1])
  {
    if forall i | 0 <= i < |c| - 1 :: !Closing(cycles, c[i], c[i + 1]) {
      Backwards(needs, cycles, done, c, |c| - 1);
      assert false;
    }
  }

  /** The validator's search: colours, a stack, and the cycles found so far. */
  class CycleFinder {
    const needs: Needs
    var color: map<Id, Mark>
    var stack: seq<Id>
    var cycles: seq<seq<Id>>
    ghost var done: seq<Id>

    ghost predicate Valid()
      reads this
    {
      && Searching(needs, color, stack, done)
      && Covered(needs, cycles, done)
      && (forall c | c in cycles :: IsCycle(needs, c))
    }

    constructor (needs: Needs)
      requires Closed(needs)
      ensures Valid() && this.needs == needs && stack == [] && done == []
    {
      this.needs := needs;
      color, stack, cycles, done := map[], [], [], [];
    }

    /** One need of the step on top of the stack. */
    method Explore(dep: Id)
      requires Valid() && stack != [] && dep in needs[stack[|stack| - 1]]
      modifies this
      ensures Valid() && stack == old(stack) && old(done) <= done
      ensures old(color.Keys) <= color.Keys && old(cycles) <= cycles
      ensures dep in done || Closing(cycles, old(stack[|stack| - 1]), dep)
      decreases needs.Keys - color.Keys, 1
    {
      if dep !in color {
        Visit(dep);
      } else if color[dep] == Grey {
        var k := Position(stack, dep);
        BackEdge(needs, stack, k, dep);
        ghost var found := stack[k..] + [dep];
        CoveredMore(needs, cycles, cycles + [found], done);
        assert found in cycles + [found] && found[|found| - 2] == stack[|stack| - 1];
        cycles := cycles + [stack[k..] + [dep]];
      }
    }

    method Visit(sid: Id)
      requires Valid() && sid in needs && sid !in color
      requires stack != [] ==> sid in needs[stack[|stack| - 1]]
      modifies this
      ensures Valid() && stack == old(stack) && old(done) <= done && sid in done
      ensures old(color.Keys) <= color.Keys && old(cycles) <= cycles
      decreases needs.Keys - color.Keys, 0
    {
      Open(sid);
      ghost var marked := color.Keys;
      for i := 0 to |needs[sid]|
        invariant Valid() && stack == old(stack) + [sid] && old(done) <= done
        invariant marked <= color.Keys && old(cycles) <= cycles
        invariant Explored(cycles, done, sid, needs[sid], i)
      {
        ghost var before, found := done, cycles;
        Explore(needs[sid][i]);
        ExploredNext(found, cycles, before, done, sid, needs[sid], i);
      }
      Close(sid);
    }

    method Open(sid: Id)
      requires Valid() && sid in needs && sid !in color
      requires stack != [] ==> sid in needs[stack[|stack| - 1]]
      modifies `color, `stack
      ensures Valid() && stack == old(stack) + [sid] && color == old(color)[sid := Grey]
    {
      Push(needs, color, stack, done, sid);
      color := color[sid := Grey];
      stack := stack + [sid];
    }

    method Close(sid: Id)
      requires Valid() && stack != [] && stack[|stack| - 1] == sid
      requires sid in needs && Explored(cycles, done, sid, needs[sid], |needs[sid]|)
      modifies `color, `stack, `done
      ensures Valid() && stack == old(stack)[..|old(stack)| - 1]
      ensures color == old(color)[sid := Black] && done == old(done) + [sid]
    {
      assert stack == stack[..|stack| - 1] + [sid];
      Pop(needs, color, stack[..|stack| - 1], done, sid);
      CoverNext(needs, cycles, done, sid);
      stack := stack[..|stack| - 1];
      color := color[sid := Black];
      done := done + [sid];
    }
  }

  method CollectCycles(ids: seq<Id>, needs: Needs) returns (cycles: seq<seq<Id>>)
    requires Closed(needs) && Elements(ids) == needs.Keys
    ensures forall c | c in cycles :: IsCycle(needs, c)
    ensures cycles == [] <==> Acyclic(needs)
    ensures forall c | IsCycle(needs, c) :: exists i | 0 <= i < |c| - 1 :: Closing(cycles, c[i], c[i + 1])
  {
    var finder := new CycleFinder(needs);
    for i := 0 to |ids|
      invariant finder.Valid() && finder.needs == needs && finder.stack == [] && fresh(finder)
      invariant forall j | 0 <= j < i :: ids[j] in finder.done
    {
      assert ids[i] in Elements(ids);
      ghost var before := finder.done;
      if ids[i] !in finder.color {
        finder.Visit(ids[i]);
      }
      assert before <= finder.done;
    }
    cycles := finder.cycles;
    AllDone(ids, needs, finder.done);
    forall c | IsCycle(needs, c) ensures exists i | 0 <= i < |c| - 1 :: Closing(cycles, c[i], c[i + 1]) {
      CycleIsClosed(needs, cycles, finder.done, c);
    }
    if cycles != [] {
      assert cycles[0] in cycles;
    }
  }

  /** Every list found is a cycle, nothing is found exactly when there is none, and every cycle has an
      edge that closes one of those found. */
  method FindCycles(steps: seq<Step>) returns (cycles: seq<seq<Id>>)
    ensures forall c | c in cycles :: IsCycle(KnownNeeds(steps), c)
    ensures cycles == [] <==> Acyclic(KnownNeeds(steps))
    ensures forall c | IsCycle(KnownNeeds(steps), c) :: exists i | 0 <= i < |c| - 1 :: Closing(cycles, c[i], c[i + 1])
  {
    var needs := KnownNeeds(steps);
    cycles := CollectCycles(Ids(steps), needs);
  }

  // ----- building a graph ---------------------------------------------------------------------

  datatype GraphError =
    | DuplicateId(id: Id)
    | UnknownNeed(id: Id, need: Id)
    | NeedsItself(id: Id)
    | HasCycle(cycle: seq<Id>)

  datatype Result<T> = Ok(value: T) | Err(error: GraphError)

  datatype StepGraph = StepGraph(
    steps: seq<Step>, byId: map<Id, Step>, needs: Needs, dependents: map<Id, seq<Id>>, roots: seq<Id>)

  ghost predicate Inverse(needs: Needs, dependents: Needs) {
    forall d, s | d in dependents :: s in dependents[d] <==> s in needs && d in needs[s]
  }

  /** In document order, each at most once, among the first `n`. */
  predicate InDocument(ids: seq<Id>, s: seq<Id>, n: nat) {
    && (forall x | x in s :: x in ids && Position(ids, x) < n)
    && forall i, j | 0 <= i < j < |s| :: Position(ids, s[i]) < Position(ids, s[j])
  }

  predicate AllInDocument(ids: seq<Id>, dependents: Needs, n: nat) {
    forall d | d in dependents :: InDocument(ids, dependents[d], n)
  }

  predicate Linked(needs: Needs, step: Step) {
    step.id in needs && needs[step.id] == Once(step.needs)
  }

  /** What `from_steps` promises about the graph it accepts. */
  ghost predicate IsGraphOf(g: StepGraph, steps: seq<Step>) {
    && g.steps == steps && UniqueIds(steps) && g.byId == ById(steps)
    && g.needs.Keys == g.byId.Keys && Closed(g.needs) && Acyclic(g.needs)
    && (forall i | 0 <= i < |steps| :: Linked(g.needs, steps[i]))
    && g.dependents.Keys == g.byId.Keys
    && Inverse(g.needs, g.dependents) && AllInDocument(Ids(steps), g.dependents, |steps|)
    && (forall s :: s in g.roots <==> s in g.needs && g.needs[s] == []) && InDocument(Ids(steps), g.roots, |steps|)
  }

  predicate NeedsSiblings(step: Step, byId: map<Id, Step>) {
    forall d | d in step.needs :: d in byId && d != step.id
  }

  /** A sibling list that can be run: unique ids, needs that name other siblings, no cycle. */
  ghost predicate Runnable(steps: seq<Step>) {
    && UniqueIds(steps)
    && (forall i | 0 <= i < |steps| :: NeedsSiblings(steps[i], ById(steps)))
    && Acyclic(KnownNeeds(steps))
  }

  /** `tuple(dict.fromkeys(needs))`. */
  function Once(needs: seq<Id>): (r: seq<Id>)
    ensures Distinct(r) && forall d :: d in r <==> d in needs
  {
    if needs == [] then []
    else
      var rest, last := Once(needs[..|needs| - 1]), needs[|needs| - 1];
      assert needs == needs[..|needs| - 1] + [last];
      if last in rest then rest else rest + [last]
  }

  /** What each refusal says of the list. */
  ghost predicate Explains(e: GraphError, steps: seq<Step>) {
    match e
    case DuplicateId(id) => exists i, j | 0 <= i < j < |steps| :: steps[i].id == steps[j].id == id
    case UnknownNeed(id, need) =>
      UniqueIds(steps) && need !in ById(steps)
      && exists i | 0 <= i < |steps| :: steps[i].id == id && need in steps[i].needs
    case NeedsItself(id) =>
      UniqueIds(steps) && exists i | 0 <= i < |steps| :: steps[i].id == id && id in steps[i].needs
    case HasCycle(cycle) =>
      UniqueIds(steps) && IsCycle(KnownNeeds(steps), cycle)
      && forall i | 0 <= i < |steps| :: NeedsSiblings(steps[i], ById(steps))
  }

  method FromSteps(steps: seq<Step>) returns (r: Result<StepGraph>)
    ensures r.Ok? <==> Runnable(steps)
    ensures r.Ok? ==> IsGraphOf(r.value, steps)
    ensures r.Err? ==> Explains(r.error, steps)
  {
    var byId, duplicate := IndexSteps(steps);
    if duplicate.Some? {
      return Err(DuplicateId(duplicate.value));
    }
    var needs, dependents, error := LinkSteps(steps, Ids(steps), byId);
    if error.Some? {
      return Err(error.value);
    }
    NeedsAgree(steps, needs);
    var cycle := CheckAcyclic(Ids(steps), needs);
    if cycle.Some? {
      return Err(HasCycle(cycle.value));
    }
    var roots := Roots(steps, needs);
    return Ok(StepGraph(steps, byId, needs, dependents, roots));
  }

  method IndexSteps(steps: seq<Step>) returns (byId: map<Id, Step>, duplicate: Option<Id>)
    ensures duplicate.Some? ==> exists i, j | 0 <= i < j < |steps| :: steps[i].id == steps[j].id == duplicate.value
    ensures duplicate.None? ==> UniqueIds(steps) && byId == ById(steps)
  {
    byId := map[];
    for i := 0 to |steps|
      invariant byId == ById(steps[..i]) && UniqueIds(steps[..i])
    {
      if steps[i].id in byId {
        DuplicateFound(steps, i);
        return byId, Some(steps[i].id);
      }
      assert steps[..i + 1][..i] == steps[..i];
      NoDuplicate(steps, i);
      byId := byId[steps[i].id := steps[i]];
    }
    assert steps[..|steps|] == steps;
    return byId, None;
  }

  method LinkSteps(steps: seq<Step>, ids: seq<Id>, byId: map<Id, Step>)
    returns (needs: Needs, dependents: map<Id, seq<Id>>, error: Option<GraphError>)
    requires ids == Ids(steps) && Distinct(ids)
    ensures error.Some? <==> exists j | 0 <= j < |steps| :: !NeedsSiblings(steps[j], byId)
    ensures error.Some? ==> exists j | 0 <= j < |steps| :: BlamesNeed(error.value, steps[j], byId)
    ensures error.None? ==> needs.Keys == Elements(ids)
    ensures error.None? ==> dependents.Keys == byId.Keys
    ensures error.None? ==> forall j | 0 <= j < |steps| :: Linked(needs, steps[j])
    ensures error.None? ==> Inverse(needs, dependents) && AllInDocument(ids, dependents, |steps|)
  {
    needs, dependents := map[], map id | id in byId :: [];
    for i := 0 to |steps|
      invariant needs.Keys == Elements(ids[..i])
      invariant forall j | 0 <= j < i :: Linked(needs, steps[j])
      invariant forall j | 0 <= j < i :: NeedsSiblings(steps[j], byId)
      invariant dependents.Keys == byId.Keys
      invariant Inverse(needs, dependents) && AllInDocument(ids, dependents, i)
    {
      var step := steps[i];
      error := BadNeed(step, byId);
      if error.Some? {
        return;
      }
      assert ids[..i + 1] == ids[..i] + [ids[i]];
      needs, dependents := LinkOne(step, needs, dependents, ids, i);
    }
    assert ids[..|ids|] == ids;
    return needs, dependents, None;
  }

  method LinkOne(step: Step, needs: Needs, dependents: Needs, ghost ids: seq<Id>, ghost i: nat)
    returns (needs': Needs, dependents': Needs)
    requires step.id !in needs && Inverse(needs, dependents)
    requires Distinct(ids) && i < |ids| && ids[i] == step.id && AllInDocument(ids, dependents, i)
    requires forall d | d in step.needs :: d in dependents
    ensures needs'.Keys == needs.Keys + {step.id} && Linked(needs', step)
    ensures forall s: Step | s.id != step.id && Linked(needs, s) :: Linked(needs', s)
    ensures dependents'.Keys == dependents.Keys
    ensures Inverse(needs', dependents') && AllInDocument(ids, dependents', i + 1)
  {
    needs' := needs[step.id := Once(step.needs)];
    dependents' := AddDependent(dependents, step.id, Once(step.needs));
    StaysInverse(needs, dependents, step.id, Once(step.needs), dependents');
    StaysInDocument(ids, dependents, Once(step.needs), i, dependents');
  }

  /** The edges of one more step, entered on both sides. */
  ghost predicate Entered(dependents: Needs, sid: Id, needs: seq<Id>, dependents': Needs) {
    && dependents'.Keys == dependents.Keys
    && forall d | d in dependents' :: dependents'[d] == if d in needs then dependents[d] + [sid] else dependents[d]
  }

  lemma StaysInverse(needs: Needs, dependents: Needs, sid: Id, of: seq<Id>, dependents': Needs)
    requires sid !in needs && Inverse(needs, dependents) && Entered(dependents, sid, of, dependents')
    ensures Inverse(needs[sid := of], dependents')
  {
    forall d, s | d in dependents' ensures s in dependents'[d] <==> s in needs[sid := of] && d in needs[sid := of][s] {
      assert s in dependents[d] + [sid] <==> s in dependents[d] || s == sid;
      assert s in dependents[d] <==> s in needs && d in needs[s];
    }
  }

  lemma StaysInDocument(ids: seq<Id>, dependents: Needs, of: seq<Id>, i: nat, dependents': Needs)
    requires Distinct(ids) && i < |ids| && AllInDocument(ids, dependents, i)
    requires Entered(dependents, ids[i], of, dependents')
    ensures AllInDocument(ids, dependents', i + 1)
  {
    forall d | d in dependents' ensures InDocument(ids, dependents'[d], i + 1) {
      DocumentGrows(ids, dependents[d], i);
    }
  }

  lemma DocumentGrows(ids: seq<Id>, s: seq<Id>, i: nat)
    requires Distinct(ids) && i < |ids| && InDocument(ids, s, i)
    ensures InDocument(ids, s, i + 1) && InDocument(ids, s + [ids[i]], i + 1)
  {
    var p := Position(ids, ids[i]);
    assert ids[p] == ids[i];
    assert forall k | 0 <= k < |s| :: s[k] in s;
  }

  /** The error names a need of this step that is no other sibling. */
  predicate BlamesNeed(e: GraphError, step: Step, byId: map<Id, Step>) {
    match e
    case UnknownNeed(id, need) => id == step.id && need in step.needs && need !in byId
    case NeedsItself(id) => id == step.id && id in step.needs
    case _ => false
  }

  method BadNeed(step: Step, byId: map<Id, Step>) returns (error: Option<GraphError>)
    ensures error.Some? <==> !NeedsSiblings(step, byId)
    ensures error.Some? ==> BlamesNeed(error.value, step, byId)
  {
    for j := 0 to |step.needs|
      invariant forall k | 0 <= k < j :: step.needs[k] in byId && step.needs[k] != step.id
    {
      if step.needs[j] !in byId {
        return Some(UnknownNeed(step.id, step.needs[j]));
      }
      if step.needs[j] == step.id {
        return Some(NeedsItself(step.id));
      }
    }
    return None;
  }

  method Roots(steps: seq<Step>, needs: Needs) returns (roots: seq<Id>)
    requires UniqueIds(steps) && needs.Keys == Elements(Ids(steps))
    ensures forall s :: s in roots <==> s in needs && needs[s] == []
    ensures InDocument(Ids(steps), roots, |steps|)
  {
    roots := [];
    for i := 0 to |steps|
      invariant InDocument(Ids(steps), roots, i)
      invariant forall s :: s in roots <==> s in Elements(Ids(steps[..i])) && s in needs && needs[s] == []
    {
      IdsSnoc(steps, i);
      DocumentGrows(Ids(steps), roots, i);
      assert Ids(steps)[i] in Elements(Ids(steps));
      if needs[steps[i].id] == [] {
        roots := roots + [steps[i].id];
      }
    }
    assert steps[..|steps|] == steps;
  }

  lemma IdsSnoc(steps: seq<Step>, i: nat)
    requires i < |steps|
    ensures Elements(Ids(steps[..i + 1])) == Elements(Ids(steps[..i])) + {steps[i].id}
  {
    assert Ids(steps[..i + 1]) == Ids(steps[..i]) + [steps[i].id];
  }

  method AddDependent(dependents: map<Id, seq<Id>>, sid: Id, needs: seq<Id>) returns (r: map<Id, seq<Id>>)
    requires Distinct(needs) && forall d | d in needs :: d in dependents
    ensures r.Keys == dependents.Keys
    ensures forall d | d in r :: r[d] == if d in needs then dependents[d] + [sid] else dependents[d]
  {
    r := dependents;
    for i := 0 to |needs|
      invariant r.Keys == dependents.Keys
      invariant forall d | d in r :: r[d] == if d in needs[..i] then dependents[d] + [sid] else dependents[d]
    {
      assert needs[i] !in needs[..i] && needs[..i + 1] == needs[..i] + [needs[i]];
      r := r[needs[i] := r[needs[i]] + [sid]];
    }
    assert needs[..|needs|] == needs;
  }

  lemma DuplicateFound(steps: seq<Step>, i: nat)
    requires i < |steps| && steps[i].id in ById(steps[..i])
    ensures exists j, k | 0 <= j < k < |steps| :: steps[j].id == steps[k].id == steps[i].id
  {
    var j :| 0 <= j < i && Ids(steps[..i])[j] == steps[i].id;
  }

  lemma NoDuplicate(steps: seq<Step>, i: nat)
    requires i < |steps| && UniqueIds(steps[..i]) && steps[i].id !in ById(steps[..i])
    ensures UniqueIds(steps[..i + 1])
  {
    forall j | 0 <= j < i ensures steps[j].id != steps[i].id {
      assert Ids(steps[..i])[j] in Elements(Ids(steps[..i]));
    }
  }

  /** The same edges as the validator sees. */
  lemma NeedsAgree(steps: seq<Step>, needs: Needs)
    requires UniqueIds(steps) && needs.Keys == Elements(Ids(steps))
    requires forall j | 0 <= j < |steps| :: Linked(needs, steps[j])
    requires forall j | 0 <= j < |steps| :: NeedsSiblings(steps[j], ById(steps))
    ensures Closed(needs)
    ensures Acyclic(needs) <==> Acyclic(KnownNeeds(steps))
    ensures forall c :: IsCycle(needs, c) <==> IsCycle(KnownNeeds(steps), c)
  {
    forall s | s in needs ensures forall d :: d in needs[s] <==> d in KnownNeeds(steps)[s] && d in needs {
      var j :| 0 <= j < |steps| && Ids(steps)[j] == s;
      ByIdUnique(steps, j);
    }
    SameCycles(needs, KnownNeeds(steps));
  }

  lemma SameCycles(a: Needs, b: Needs)
    requires a.Keys == b.Keys && forall s, d | s in a :: d in a[s] <==> d in b[s]
    ensures forall c :: IsCycle(a, c) <==> IsCycle(b, c)
    ensures Acyclic(a) <==> Acyclic(b)
  {}
}
