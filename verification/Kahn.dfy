/** The validator's ordering of one sibling list: counting in-degrees down along a queue. */
module Kahn {
  import opened Graphs
  import opened KahnOrder

  // ----- counting -----------------------------------------------------------------------------

  /** How often `x` occurs in `s`. */
  function Count(s: seq<Id>, x: Id): nat {
    if s == [] then 0
    else Count(s[..|s| - 1], x) + if s[|s| - 1] == x then 1 else 0
  }

  /** How many needs, repetitions included, are not in `seen`. */
  function Unmet(needs: seq<Id>, seen: set<Id>): nat {
    if needs == [] then 0
    else Unmet(needs[..|needs| - 1], seen) + if needs[|needs| - 1] in seen then 0 else 1
  }

  lemma CountSnoc(s: seq<Id>, j: nat)
    requires j < |s|
    ensures forall x :: Count(s[..j + 1], x) == Count(s[..j], x) + if s[j] == x then 1 else 0
  {
    assert s[..j + 1][..j] == s[..j];
  }

  lemma CountAppend(s: seq<Id>, c: Id)
    ensures forall x :: Count(s + [c], x) == Count(s, x) + if c == x then 1 else 0
  {
    assert (s + [c])[..|s|] == s;
  }

  lemma {:induction false} CountPrefix(s: seq<Id>, j: nat, x: Id)
    requires j <= |s|
    ensures Count(s[..j], x) <= Count(s, x)
    decreases |s|
  {
    if j < |s| {
      CountPrefix(s[..|s| - 1], j, x);
      assert s[..|s| - 1][..j] == s[..j];
    } else {
      assert s[..j] == s;
    }
  }

  lemma {:induction false} UnmetStep(needs: seq<Id>, seen: set<Id>, d: Id)
    requires d !in seen
    ensures Unmet(needs, seen) == Unmet(needs, seen + {d}) + Count(needs, d)
    decreases |needs|
  {
    if needs != [] {
      UnmetStep(needs[..|needs| - 1], seen, d);
    }
  }

  lemma {:induction false} UnmetZero(needs: seq<Id>, seen: set<Id>)
    ensures Unmet(needs, seen) == 0 <==> forall d | d in needs :: d in seen
    decreases |needs|
  {
    if needs != [] {
      UnmetZero(needs[..|needs| - 1], seen);
      assert needs == needs[..|needs| - 1] + [needs[|needs| - 1]];
    }
  }

  lemma {:induction false} UnmetNothing(needs: seq<Id>)
    ensures Unmet(needs, {}) == |needs|
    decreases |needs|
  {
    if needs != [] {
      UnmetNothing(needs[..|needs| - 1]);
    }
  }

  // ----- links --------------------------------------------------------------------------------

  /** `children[d]` lists every step once for each time it needs `d`. */
  ghost predicate Children(needs: Needs, children: Needs) {
    && children.Keys == needs.Keys
    && (forall d, c | d in children && c in needs :: Count(children[d], c) == Count(needs[c], d))
    && OnlySteps(needs, children)
  }

  predicate OnlySteps(needs: Needs, children: Needs) {
    forall d, c | d in children && c in children[d] :: c in needs
  }

  /** The children of every step are in document order. */
  predicate InDocOrder(ids: seq<Id>, children: Needs) {
    forall d | d in children :: DocOrder(ids, children[d])
  }

  /** In document order, and only the first `n` steps. */
  predicate ListedUpTo(ids: seq<Id>, children: Needs, n: nat) {
    InDocOrder(ids, children) && forall d, c | d in children && c in children[d] :: c in ids && Position(ids, c) < n
  }

  lemma {:induction false} PositionIs(ids: seq<Id>, i: nat)
    requires Distinct(ids) && i < |ids|
    ensures Position(ids, ids[i]) == i
  {
    assert ids[Position(ids, ids[i])] == ids[i];
  }

  lemma DocOrderSnoc(ids: seq<Id>, s: seq<Id>, c: Id)
    requires DocOrder(ids, s) && c in ids && forall x | x in s :: x in ids && Position(ids, x) <= Position(ids, c)
    ensures DocOrder(ids, s + [c])
  {
    forall i, j | 0 <= i < j < |s + [c]| ensures Position(ids, (s + [c])[i]) <= Position(ids, (s + [c])[j]) {
      assert s[i] in s;
    }
  }

  lemma ListedMore(ids: seq<Id>, children: Needs, i: nat)
    requires ListedUpTo(ids, children, i)
    ensures ListedUpTo(ids, children, i + 1)
  {}

  lemma ListOneMore(ids: seq<Id>, children: Needs, d: Id, i: nat)
    requires ListedUpTo(ids, children, i + 1) && Distinct(ids) && i < |ids| && d in children
    ensures ListedUpTo(ids, children[d := children[d] + [ids[i]]], i + 1)
  {
    PositionIs(ids, i);
    assert forall x | x in children[d] :: x in ids && Position(ids, x) < i + 1;
    DocOrderSnoc(ids, children[d], ids[i]);
  }

  lemma PrefixHas(ids: seq<Id>, i: nat)
    requires Distinct(ids) && i < |ids|
    ensures ids[i] !in ids[..i] && forall c :: c in ids[..i + 1] <==> c in ids[..i] || c == ids[i]
  {
    assert ids[..i + 1] == ids[..i] + [ids[i]];
  }

  /** The links of the first `n` steps are made. */
  ghost predicate CountedUpTo(ids: seq<Id>, needs: Needs, children: Needs, n: nat)
    requires n <= |ids|
  {
    forall d, c | d in children && c in needs ::
      Count(children[d], c) == if c in ids[..n] then Count(needs[c], d) else 0
  }

  lemma CountedMore(ids: seq<Id>, needs: Needs, children: Needs, more: Needs, i: nat)
    requires Distinct(ids) && i < |ids| && ids[i] in needs && CountedUpTo(ids, needs, children, i)
    requires more.Keys == children.Keys
    requires forall d, c | d in more ::
               Count(more[d], c) == Count(children[d], c) + if c == ids[i] then Count(needs[ids[i]], d) else 0
    ensures CountedUpTo(ids, needs, more, i + 1)
  {
    PrefixHas(ids, i);
  }

  method Link(ids: seq<Id>, needs: Needs) returns (children: Needs)
    requires Distinct(ids) && Elements(ids) == needs.Keys && Closed(needs)
    ensures Children(needs, children) && InDocOrder(ids, children)
  {
    children := map id | id in needs :: [];
    for i := 0 to |ids|
      invariant children.Keys == needs.Keys && OnlySteps(needs, children)
      invariant CountedUpTo(ids, needs, children, i) && ListedUpTo(ids, children, i)
    {
      assert ids[i] in Elements(ids);
      ghost var before := children;
      children := AddChild(needs, children, ids, i);
      CountedMore(ids, needs, before, children, i);
    }
    assert ids[..|ids|] == ids;
    assert forall c | c in needs :: c in Elements(ids);
  }

  lemma ElementsSnoc(s: seq<Id>, x: Id)
    ensures Elements(s + [x]) == Elements(s) + {x}
  {}

  lemma HeadAndTail(s: seq<Id>)
    requires s != []
    ensures s == [s[0]] + s[1..] && s[0] in s
  {}

  /** `s` was added to the children of each step of `of`, once for every time it is named. */
  ghost predicate Added(children: Needs, r: Needs, s: Id, of: seq<Id>) {
    && r.Keys == children.Keys
    && forall d, c | d in r :: Count(r[d], c) == Count(children[d], c) + if c == s then Count(of, d) else 0
  }

  lemma AddedMore(children: Needs, r: Needs, s: Id, of: seq<Id>, j: nat)
    requires j < |of| && Added(children, r, s, of[..j]) && of[j] in r
    ensures Added(children, r[of[j] := r[of[j]] + [s]], s, of[..j + 1])
  {
    CountSnoc(of, j);
    CountAppend(r[of[j]], s);
  }

  method AddChild(needs: Needs, children: Needs, ids: seq<Id>, i: nat) returns (r: Needs)
    requires Distinct(ids) && i < |ids| && Closed(needs) && ids[i] in needs
    requires children.Keys == needs.Keys && OnlySteps(needs, children) && ListedUpTo(ids, children, i)
    ensures r.Keys == needs.Keys && OnlySteps(needs, r) && ListedUpTo(ids, r, i + 1)
    ensures forall d, c | d in r ::
              Count(r[d], c) == Count(children[d], c) + if c == ids[i] then Count(needs[ids[i]], d) else 0
  {
    var s := ids[i];
    r := children;
    ListedMore(ids, r, i);
    assert needs[s][..0] == [] && forall d :: Count([], d) == 0;
    for j := 0 to |needs[s]|
      invariant r.Keys == needs.Keys && OnlySteps(needs, r) && ListedUpTo(ids, r, i + 1)
      invariant Added(children, r, s, needs[s][..j])
    {
      var d := needs[s][j];
      AddedMore(children, r, s, needs[s], j);
      ListOneMore(ids, r, d, i);
      r := r[d := r[d] + [s]];
    }
    assert needs[s][..|needs[s]|] == needs[s];
  }

  // ----- the loop -----------------------------------------------------------------------------

  /** Exactly the steps outside `seen` whose counter is zero are queued, once each. */
  ghost predicate ReadyOutside(indeg: map<Id, nat>, ready: seq<Id>, seen: set<Id>) {
    Distinct(ready) && forall c :: c in ready <==> c in indeg && c !in seen && indeg[c] == 0
  }

  /** The queue and the counters between two steps of the loop. */
  ghost predicate Counting(needs: Needs, indeg: map<Id, nat>, ready: seq<Id>, out: seq<Id>) {
    && indeg.Keys == needs.Keys && NeedsEarlier(needs, out)
    && (forall c | c in needs :: indeg[c] == Unmet(needs[c], Elements(out)))
    && ReadyOutside(indeg, ready, Elements(out))
  }

  lemma SettledUnmet(needs: Needs, out: seq<Id>, c: Id)
    requires NeedsEarlier(needs, out) && c in out
    ensures c in needs && Unmet(needs[c], Elements(out)) == 0
  {
    var i :| 0 <= i < |out| && out[i] == c;
    UnmetZero(needs[c], Elements(out));
  }

  /** What taking `sid` off the queue changes: each counter by as often as its step needs `sid`. */
  lemma Taken(needs: Needs, indeg: map<Id, nat>, ready: seq<Id>, out: seq<Id>, sid: Id, children: seq<Id>)
    requires Counting(needs, indeg, [sid] + ready, out)
    requires forall c | c in needs :: Count(children, c) == Count(needs[c], sid)
    ensures NeedsEarlier(needs, out + [sid]) && ReadyOutside(indeg, ready, Elements(out + [sid]))
    ensures Elements(out + [sid]) == Elements(out) + {sid}
    ensures forall c | c in needs :: indeg[c] == Unmet(needs[c], Elements(out + [sid])) + Count(children, c)
    ensures forall c | c in Elements(out + [sid]) :: c in needs && indeg[c] == 0
  {
    var all, next := [sid] + ready, out + [sid];
    assert all[0] == sid && sid in all;
    UnmetZero(needs[sid], Elements(out));
    forall i | 0 <= i < |next| ensures next[i] in needs && forall d | d in needs[next[i]] :: d in next[..i] {
      assert next[..i] == out[..i];
    }
    forall i, j | 0 <= i < j < |ready| ensures ready[i] != ready[j] {
      assert all[i + 1] != all[j + 1];
    }
    forall i | 0 <= i < |ready| ensures ready[i] != sid {
      assert all[0] != all[i + 1];
    }
    assert Elements(next) == Elements(out) + {sid};
    assert forall c :: c in all <==> c == sid || c in ready;
    forall c | c in needs ensures indeg[c] == Unmet(needs[c], Elements(next)) + Count(children, c) {
      UnmetStep(needs[c], Elements(out), sid);
    }
    forall c | c in out ensures c in needs && indeg[c] == 0 {
      SettledUnmet(needs, out, c);
    }
  }

  method CountDown(indeg: map<Id, nat>, ready: seq<Id>, child: Id, ghost seen: set<Id>)
    returns (indeg': map<Id, nat>, ready': seq<Id>)
    requires ReadyOutside(indeg, ready, seen) && child in indeg && indeg[child] > 0 && child !in seen
    ensures ReadyOutside(indeg', ready', seen)
    ensures indeg' == indeg[child := indeg[child] - 1]
    ensures ready' == ready || ready' == ready + [child]
  {
    indeg', ready' := indeg[child := indeg[child] - 1], ready;
    if indeg'[child] == 0 {
      ready' := ready' + [child];
    }
  }

  lemma {:induction false} CountIn(s: seq<Id>, x: Id)
    ensures Count(s, x) > 0 <==> x in s
    decreases |s|
  {
    if s != [] {
      CountIn(s[..|s| - 1], x);
      assert s == s[..|s| - 1] + [s[|s| - 1]];
    }
  }

  /** `released` was queued while the first `j` children were counted down. */
  ghost predicate Queued(ids: seq<Id>, children: seq<Id>, j: nat, ready0: seq<Id>, ready: seq<Id>, released: seq<Id>) {
    && j <= |children| && ready == ready0 + released && DocOrder(ids, released)
    && forall x | x in released :: x in children[..j]
  }

  lemma QueuedOneMore(ids: seq<Id>, children: seq<Id>, j: nat, ready0: seq<Id>, ready: seq<Id>, released: seq<Id>)
    requires Queued(ids, children, j, ready0, ready, released) && j < |children| && DocOrder(ids, children)
    ensures Queued(ids, children, j + 1, ready0, ready, released)
    ensures Queued(ids, children, j + 1, ready0, ready + [children[j]], released + [children[j]])
  {
    assert children[..j + 1] == children[..j] + [children[j]];
    assert children[j] in children;
    forall x | x in children[..j] ensures x in ids && Position(ids, x) <= Position(ids, children[j]) {
      var k :| 0 <= k < j && children[k] == x;
      assert x in children;
    }
    DocOrderSnoc(ids, released, children[j]);
    assert ready0 + released + [children[j]] == ready0 + (released + [children[j]]);
  }

  /** Each counter is down by as often as its step is among the first `j` children. */
  ghost predicate CountedDown(needs: Needs, indeg0: map<Id, nat>, indeg: map<Id, nat>, children: seq<Id>, j: nat) {
    && j <= |children| && indeg.Keys == indeg0.Keys == needs.Keys
    && forall c | c in needs :: indeg[c] + Count(children[..j], c) == indeg0[c]
  }

  lemma CountedDownMore(needs: Needs, indeg0: map<Id, nat>, indeg: map<Id, nat>, children: seq<Id>, j: nat)
    requires CountedDown(needs, indeg0, indeg, children, j) && j < |children| && children[j] in needs
    requires Count(children, children[j]) <= indeg0[children[j]]
    ensures indeg[children[j]] > 0
    ensures CountedDown(needs, indeg0, indeg[children[j] := indeg[children[j]] - 1], children, j + 1)
  {
    CountSnoc(children, j);
    CountPrefix(children, j + 1, children[j]);
  }

  /** Taking `sid` off the queue: count its children down, queue those that reach zero. */
  method Release(ids: seq<Id>, needs: Needs, indeg0: map<Id, nat>, ready0: seq<Id>, ghost out: seq<Id>, sid: Id,
                 children: seq<Id>)
    returns (indeg: map<Id, nat>, ready: seq<Id>, ghost released: seq<Id>)
    requires Counting(needs, indeg0, [sid] + ready0, out)
    requires forall c | c in children :: c in needs
    requires forall c | c in needs :: Count(children, c) == Count(needs[c], sid)
    requires DocOrder(ids, children)
    ensures Counting(needs, indeg, ready, out + [sid])
    ensures Queued(ids, children, |children|, ready0, ready, released)
  {
    Taken(needs, indeg0, ready0, out, sid, children);
    ghost var seen := Elements(out + [sid]);
    indeg, ready, released := indeg0, ready0, [];
    for j := 0 to |children|
      invariant CountedDown(needs, indeg0, indeg, children, j) && ReadyOutside(indeg, ready, seen)
      invariant Queued(ids, children, j, ready0, ready, released)
    {
      var child := children[j];
      CountedDownMore(needs, indeg0, indeg, children, j);
      QueuedOneMore(ids, children, j, ready0, ready, released);
      var queue := ready;
      indeg, ready := CountDown(indeg, ready, child, seen);
      released := if ready == queue then released else released + [child];
    }
    assert children[..|children|] == children;
  }

  /** What was released goes behind the queue in turn. */
  lemma StaysInTurn(ids: seq<Id>, needs: Needs, indeg: map<Id, nat>, ready0: seq<Id>, out: seq<Id>, sid: Id,
                    children: seq<Id>, ready: seq<Id>, released: seq<Id>)
    requires Elements(ids) == needs.Keys
    requires Counting(needs, indeg, [sid] + ready0, out) && InTurn(ids, needs, out, out + ([sid] + ready0))
    requires Queued(ids, children, |children|, ready0, ready, released) && Distinct(ready)
    requires forall c | c in children :: c in needs && Count(children, c) == Count(needs[c], sid)
    ensures InTurn(ids, needs, out + [sid], out + [sid] + ready)
  {
    var queue := out + ([sid] + ready0);
    QueueReady(needs, indeg, [sid] + ready0, out);
    assert ([sid] + ready0)[0] == sid;
    forall x | x in queue ensures x in ids {
      assert x in needs;
    }
    forall x | x in released ensures x in needs && sid in needs[x] {
      assert x in children;
      CountIn(children, x);
      CountIn(needs[x], sid);
    }
    forall i, j | 0 <= i < j < |released| ensures released[i] != released[j] {
      assert ready[|ready0| + i] != ready[|ready0| + j];
    }
    assert sid in [sid] + ready0;
    ReleasedInTurn(ids, needs, out, sid, queue, released);
    Rejoin(out, sid, ready0, released);
  }

  lemma Rejoin(out: seq<Id>, sid: Id, ready: seq<Id>, released: seq<Id>)
    ensures out + ([sid] + ready) + released == out + [sid] + (ready + released)
  {}

  lemma QueueReady(needs: Needs, indeg: map<Id, nat>, ready: seq<Id>, out: seq<Id>)
    requires Counting(needs, indeg, ready, out)
    ensures AllReady(needs, out, out + ready) && forall x | x in ready :: x !in out
  {
    forall x | x in out + ready ensures x in needs && forall d | d in needs[x] :: d in out {
      if x in out {
        SettledUnmet(needs, out, x);
      }
      UnmetZero(needs[x], Elements(out));
    }
  }

  method FirstReady(ids: seq<Id>, indeg: map<Id, nat>) returns (ready: seq<Id>)
    requires Distinct(ids) && Elements(ids) == indeg.Keys
    ensures Distinct(ready) && forall c :: c in ready <==> c in indeg && indeg[c] == 0
    ensures DocOrder(ids, ready)
  {
    ready := [];
    for i := 0 to |ids|
      invariant Distinct(ready) && forall c :: c in ready <==> c in ids[..i] && c in indeg && indeg[c] == 0
      invariant DocOrder(ids, ready) && forall x | x in ready :: Position(ids, x) < i
    {
      assert ids[i] in Elements(ids);
      PrefixHas(ids, i);
      PositionIs(ids, i);
      if indeg[ids[i]] == 0 {
        DocOrderSnoc(ids, ready, ids[i]);
        ready := ready + [ids[i]];
      }
    }
    assert ids[..|ids|] == ids;
    assert forall c | c in indeg :: c in Elements(ids);
  }

  lemma FirstInTurn(ids: seq<Id>, needs: Needs, ready: seq<Id>)
    requires DocOrder(ids, ready) && Distinct(ready)
    requires forall c | c in ready :: c in needs && |needs[c]| == 0
    ensures InTurn(ids, needs, [], ready)
  {
    forall i, j | 0 <= i < j < |ready| ensures Before(ids, needs, [], ready[i], ready[j]) {
      assert ready[i] in ready && ready[j] in ready;
      assert ids[Position(ids, ready[i])] == ready[i] && ids[Position(ids, ready[j])] == ready[j];
    }
  }

  lemma FirstCounting(needs: Needs, indeg: map<Id, nat>, ready: seq<Id>)
    requires indeg.Keys == needs.Keys && forall c | c in needs :: indeg[c] == |needs[c]|
    requires Distinct(ready) && forall c :: c in ready <==> c in indeg && indeg[c] == 0
    ensures Counting(needs, indeg, ready, []) && [] + ready == ready
  {
    assert Elements<Id>([]) == {};
    forall c | c in needs ensures indeg[c] == Unmet(needs[c], {}) {
      UnmetNothing(needs[c]);
    }
  }

  /** Kahn's loop over ids: a settled prefix in which every step has its turn, with nothing outside
      it that could come next. */
  method Emit(ids: seq<Id>, needs: Needs) returns (out: seq<Id>)
    requires Distinct(ids) && Elements(ids) == needs.Keys && Closed(needs)
    ensures NeedsEarlier(needs, out) && InTurn(ids, needs, out, out)
    ensures forall c | c in needs && c !in out :: Unmet(needs[c], Elements(out)) > 0
  {
    var indeg: map<Id, nat> := map id | id in needs :: |needs[id]|;
    var children := Link(ids, needs);
    var ready := FirstReady(ids, indeg);
    FirstInTurn(ids, needs, ready);
    FirstCounting(needs, indeg, ready);
    out := [];
    while ready != []
      invariant Counting(needs, indeg, ready, out)
      invariant InTurn(ids, needs, out, out + ready)
      decreases needs.Keys - Elements(out)
    {
      var sid := ready[0];
      HeadAndTail(ready);
      ElementsSnoc(out, sid);
      ghost var before := indeg;
      var rest := ready[1..];
      ghost var released;
      indeg, ready, released := Release(ids, needs, indeg, rest, out, sid, children[sid]);
      StaysInTurn(ids, needs, before, rest, out, sid, children[sid], ready, released);
      out := out + [sid];
    }
    assert out + [] == out;
  }

  // ----- the order ----------------------------------------------------------------------------

  function Pick(byId: map<Id, Step>, ids: seq<Id>): (steps: seq<Step>)
    requires forall id | id in ids :: id in byId
    ensures |steps| == |ids| && forall i | 0 <= i < |ids| :: steps[i] == byId[ids[i]]
  {
    seq(|ids|, i requires 0 <= i < |ids| => byId[ids[i]])
  }

  /** `topological_order`: a permutation of the steps, topological exactly when the list has no
      cycle. The emitted part has every step in its turn; the rest, which no emitted step can
      release, follows in document order. */
  method TopologicalOrder(steps: seq<Step>) returns (order: seq<Step>, ghost emitted: nat)
    requires UniqueIds(steps)
    ensures Distinct(Ids(order)) && forall s :: s in order <==> s in steps
    ensures Topological(KnownNeeds(steps), Ids(order)) <==> Acyclic(KnownNeeds(steps))
    ensures emitted <= |order| && (Acyclic(KnownNeeds(steps)) ==> emitted == |order|)
    ensures var first := Ids(order)[..emitted]; InTurn(Ids(steps), KnownNeeds(steps), first, first)
    ensures DocOrder(Ids(steps), Ids(order)[emitted..])
    ensures var first := Ids(order)[..emitted];
            forall c | c in KnownNeeds(steps) && c !in first :: exists d | d in KnownNeeds(steps)[c] :: d !in first
  {
    var out;
    order, out := EmitSteps(steps);
    emitted := |out|;
    order := AppendRest(steps, out, order);
    Complete(steps, KnownNeeds(steps), out, order);
    StillWaiting(KnownNeeds(steps), out);
    PrefixIs(out, Ids(order));
  }

  /** `while ready: ...`, over steps. */
  method EmitSteps(steps: seq<Step>) returns (order: seq<Step>, out: seq<Id>)
    requires UniqueIds(steps)
    ensures Ids(order) == out && Distinct(out) && forall s :: s in order <==> s in steps && s.id in out
    ensures NeedsEarlier(KnownNeeds(steps), out) && InTurn(Ids(steps), KnownNeeds(steps), out, out)
    ensures forall c | c in KnownNeeds(steps) && c !in out :: Unmet(KnownNeeds(steps)[c], Elements(out)) > 0
  {
    UniqueIsDistinct(steps);
    out := Emit(Ids(steps), KnownNeeds(steps));
    OutKnown(steps, out);
    PickIds(steps, out);
    Permutes(steps, out);
    order := Pick(ById(steps), out);
  }

  lemma PrefixIs(a: seq<Id>, b: seq<Id>)
    requires a <= b
    ensures b[..|a|] == a
  {}

  lemma StillWaiting(needs: Needs, out: seq<Id>)
    requires forall c | c in needs && c !in out :: Unmet(needs[c], Elements(out)) > 0
    ensures forall c | c in needs && c !in out :: exists d | d in needs[c] :: d !in out
  {
    forall c | c in needs && c !in out ensures exists d | d in needs[c] :: d !in out {
      UnmetZero(needs[c], Elements(out));
    }
  }

  /** On an acyclic list the order is determined: two such orders are the same. */
  lemma OrderIsDetermined(steps: seq<Step>, a: seq<Id>, b: seq<Id>)
    requires Topological(KnownNeeds(steps), a) && InTurn(Ids(steps), KnownNeeds(steps), a, a)
    requires Topological(KnownNeeds(steps), b) && InTurn(Ids(steps), KnownNeeds(steps), b, b)
    ensures a == b
  {
    InTurnIsUnique(Ids(steps), KnownNeeds(steps), a, b);
  }

  /** `out.extend(s for s in steps if s.id not in seen)`. */
  method AppendRest(steps: seq<Step>, out: seq<Id>, emitted: seq<Step>) returns (order: seq<Step>)
    requires UniqueIds(steps) && Distinct(Ids(emitted)) && Ids(emitted) == out
    requires forall s :: s in emitted <==> s in steps && s.id in out
    ensures Distinct(Ids(order)) && forall s :: s in order <==> s in steps
    ensures out <= Ids(order) && DocOrder(Ids(steps), Ids(order)[|out|..])
  {
    order := emitted;
    ghost var rest: seq<Step> := [];
    for i := 0 to |steps|
      invariant order == emitted + rest && Distinct(Ids(order))
      invariant DocOrder(Ids(steps), Ids(rest)) && forall x | x in Ids(rest) :: Position(Ids(steps), x) < i
      invariant forall s :: s in order <==> s in steps && (s.id in out || s in steps[..i])
    {
      assert steps[..i + 1] == steps[..i] + [steps[i]];
      if steps[i].id !in out {
        FreshId(order, steps, i, out);
        RestGrows(steps, rest, i);
        order, rest := order + [steps[i]], rest + [steps[i]];
      }
    }
    assert steps[..|steps|] == steps;
    IdsJoined(emitted, rest);
  }

  lemma IdsJoined(a: seq<Step>, b: seq<Step>)
    ensures Ids(a + b) == Ids(a) + Ids(b)
    ensures Ids(a) <= Ids(a + b) && Ids(a + b)[|Ids(a)|..] == Ids(b)
  {
    assert Ids(a + b) == Ids(a) + Ids(b);
  }

  lemma RestGrows(steps: seq<Step>, rest: seq<Step>, i: nat)
    requires UniqueIds(steps) && i < |steps|
    requires DocOrder(Ids(steps), Ids(rest)) && forall x | x in Ids(rest) :: Position(Ids(steps), x) < i
    ensures var more := Ids(rest + [steps[i]]);
            DocOrder(Ids(steps), more) && forall x | x in more :: Position(Ids(steps), x) < i + 1
  {
    var ids := Ids(steps);
    assert ids[i] == steps[i].id;
    PositionIs(ids, i);
    DocOrderSnoc(ids, Ids(rest), ids[i]);
    assert Ids(rest + [steps[i]]) == Ids(rest) + [ids[i]];
  }

  lemma Picked(steps: seq<Step>, out: seq<Id>, s: Step)
    requires UniqueIds(steps) && s in steps && s.id in out && forall id | id in out :: id in ById(steps)
    ensures s in Pick(ById(steps), out)
  {
    var i :| 0 <= i < |out| && out[i] == s.id;
    var j :| 0 <= j < |steps| && steps[j] == s;
    ByIdUnique(steps, j);
    assert Pick(ById(steps), out)[i] == s;
  }

  lemma OutKnown(steps: seq<Step>, out: seq<Id>)
    requires NeedsEarlier(KnownNeeds(steps), out)
    ensures forall id | id in out :: id in ById(steps)
  {}

  lemma OnlyPicked(steps: seq<Step>, out: seq<Id>, s: Step)
    requires forall id | id in out :: id in ById(steps)
    requires s in Pick(ById(steps), out)
    ensures s in steps && s.id in out
  {
    var picked := Pick(ById(steps), out);
    var i :| 0 <= i < |picked| && picked[i] == s;
    assert out[i] in out;
  }

  lemma PickIds(steps: seq<Step>, out: seq<Id>)
    requires forall id | id in out :: id in ById(steps)
    ensures Ids(Pick(ById(steps), out)) == out
  {
    assert forall i | 0 <= i < |out| :: out[i] in out;
  }

  lemma Permutes(steps: seq<Step>, out: seq<Id>)
    requires UniqueIds(steps) && forall id | id in out :: id in ById(steps)
    ensures forall s :: s in Pick(ById(steps), out) <==> s in steps && s.id in out
  {
    forall s | s in steps && s.id in out ensures s in Pick(ById(steps), out) {
      Picked(steps, out, s);
    }
    forall s | s in Pick(ById(steps), out) ensures s in steps && s.id in out {
      OnlyPicked(steps, out, s);
    }
  }

  lemma FreshId(order: seq<Step>, steps: seq<Step>, i: nat, out: seq<Id>)
    requires UniqueIds(steps) && i < |steps| && steps[i].id !in out && Distinct(Ids(order))
    requires forall s :: s in order <==> s in steps && (s.id in out || s in steps[..i])
    ensures Distinct(Ids(order + [steps[i]]))
  {
    forall k | 0 <= k < |order| ensures order[k].id != steps[i].id {
      assert order[k] in order;
      if order[k] in steps[..i] {
        var j :| 0 <= j < i && steps[j] == order[k];
      }
    }
  }

  lemma Complete(steps: seq<Step>, needs: Needs, out: seq<Id>, order: seq<Step>)
    requires needs == KnownNeeds(steps) && NeedsEarlier(needs, out)
    requires forall c | c in needs && c !in out :: Unmet(needs[c], Elements(out)) > 0
    requires Distinct(Ids(order)) && forall s :: s in order <==> s in steps
    requires out <= Ids(order)
    ensures Topological(needs, Ids(order)) <==> Acyclic(needs)
    ensures Acyclic(needs) ==> out == Ids(order)
  {
    forall x | x in Ids(order) ensures x in needs {
      var i :| 0 <= i < |order| && Ids(order)[i] == x;
      assert order[i] in steps;
      var j :| 0 <= j < |steps| && steps[j] == order[i];
      assert Ids(steps)[j] == x;
    }
    if Topological(needs, Ids(order)) {
      TopologicalIsAcyclic(needs, Ids(order));
    }
    if Acyclic(needs) {
      AllEmitted(needs, out);
      SameLength(out, Ids(order));
    }
  }

  lemma AllEmitted(needs: Needs, out: seq<Id>)
    requires Acyclic(needs) && Closed(needs) && NeedsEarlier(needs, out)
    requires forall c | c in needs && c !in out :: Unmet(needs[c], Elements(out)) > 0
    ensures Elements(out) == needs.Keys
  {
    assert forall x | x in Elements(out) :: x in needs;
    var open := needs.Keys - Elements(out);
    if open != {} {
      var s := MinimalStep(needs, open);
      assert s in needs && s !in out && Unmet(needs[s], Elements(out)) > 0;
      forall d | d in needs[s] ensures d in Elements(out) {
        assert d in needs && d !in open;
      }
      UnmetZero(needs[s], Elements(out));
      assert false;
    }
    forall x | x in needs.Keys ensures x in Elements(out) {
      assert x !in open;
    }
  }
}
