/** The order of the validator against the two things its docstring says of it: what becomes of needs
    that name no sibling, and whether ready steps keep their document order. */
module KahnReadings {
  import opened Graphs
  import opened KahnOrder

  /** The order that `TopologicalOrder` gives on an acyclic list. */
  ghost predicate IsOrder(steps: seq<Step>, order: seq<Id>) {
    Topological(KnownNeeds(steps), order) && InTurn(Ids(steps), KnownNeeds(steps), order, order)
  }

  /** One step stands before another exactly when it has its turn before it. */
  lemma PrecedesExactly(ids: seq<Id>, needs: Needs, order: seq<Id>, s: Id, t: Id)
    requires Topological(needs, order) && InTurn(ids, needs, order, order) && Distinct(ids)
    requires s in needs && t in needs && s in ids && t in ids && s != t
    ensures s in order && t in order
    ensures Position(order, t) < Position(order, s) <==> Before(ids, needs, order, t, s)
  {
    assert s in Elements(order) && t in Elements(order);
    var i, j := Position(order, s), Position(order, t);
    assert ids[Position(ids, s)] == s && ids[Position(ids, t)] == t;
    assert order[i] == s && order[j] == t;
    assert Before(ids, needs, order, order[i], order[j]) || Before(ids, needs, order, order[j], order[i]);
  }

  // ----- needs that name no sibling ---------------------------------------------------------------

  lemma NoKnownNeeds(steps: seq<Step>, s: Step)
    requires UniqueIds(steps) && s in steps && forall d | d in s.needs :: d !in Ids(steps)
    ensures s.id in KnownNeeds(steps) && KnownNeeds(steps)[s.id] == []
  {
    var i :| 0 <= i < |steps| && steps[i] == s;
    ByIdUnique(steps, i);
    assert forall d | d in s.needs :: d !in Elements(Ids(steps));
    NoneKnown(ById(steps).Keys, s.needs);
  }

  lemma {:induction false} NoneKnown(ids: set<Id>, needs: seq<Id>)
    requires forall d | d in needs :: d !in ids
    ensures Known(ids, needs) == []
    decreases |needs|
  {
    if needs != [] {
      assert needs[0] in needs;
      NoneKnown(ids, needs[1..]);
    }
  }

  lemma WaitsForSomething(needs: Needs, order: seq<Id>, t: Id)
    requires NeedsEarlier(needs, order) && t in order && t in needs && needs[t] != []
    ensures ReadyAt(needs[t], order) > 0
  {
    var k, d := Position(order, t), needs[t][0];
    assert d in needs[order[k]] && d in order[..k];
    ReadyLater(needs[t], order);
  }

  predicate NamesSiblings(steps: seq<Step>, t: Step) {
    forall d | d in t.needs :: d in Ids(steps)
  }

  predicate NamesNoSibling(steps: seq<Step>, s: Step) {
    forall d | d in s.needs :: d !in Ids(steps)
  }

  lemma KnownOf(steps: seq<Step>, s: Step)
    requires UniqueIds(steps) && s in steps
    ensures s.id in KnownNeeds(steps) && s.id in Ids(steps)
    ensures KnownNeeds(steps)[s.id] == Known(ById(steps).Keys, s.needs)
  {
    var i :| 0 <= i < |steps| && steps[i] == s;
    ByIdUnique(steps, i);
    assert Ids(steps)[i] == s.id;
  }

  /** A step stands before one without known needs exactly when it has none either and comes first in
      the document. */
  lemma PrecedesRootExactly(ids: seq<Id>, needs: Needs, order: seq<Id>, s: Id, t: Id)
    requires Topological(needs, order) && InTurn(ids, needs, order, order) && Distinct(ids)
    requires s in needs && t in needs && s in ids && t in ids && s != t && needs[s] == []
    ensures s in order && t in order
    ensures Position(order, t) < Position(order, s) <==> needs[t] == [] && Position(ids, t) < Position(ids, s)
  {
    PrecedesExactly(ids, needs, order, s, t);
    if needs[t] != [] {
      WaitsForSomething(needs, order, t);
    }
  }

  lemma SiblingIsKnown(steps: seq<Step>, t: Step)
    requires UniqueIds(steps) && t in steps && NamesSiblings(steps, t) && t.needs != []
    ensures t.id in KnownNeeds(steps) && KnownNeeds(steps)[t.id] != []
  {
    KnownOf(steps, t);
    assert t.needs[0] in t.needs && t.needs[0] in Elements(Ids(steps));
    assert t.needs[0] in KnownNeeds(steps)[t.id];
  }

  /** A step that only names siblings stands before one that only names unknown ids exactly when it
      needs nothing and comes first in the document. */
  lemma PrecedesUnknownExactly(steps: seq<Step>, order: seq<Id>, s: Step, t: Step)
    requires UniqueIds(steps) && IsOrder(steps, order) && s in steps && t in steps && s.id != t.id
    requires NamesNoSibling(steps, s) && NamesSiblings(steps, t)
    ensures s.id in order && t.id in order && s.id in Ids(steps) && t.id in Ids(steps)
    ensures Position(order, t.id) < Position(order, s.id) <==>
            t.needs == [] && Position(Ids(steps), t.id) < Position(Ids(steps), s.id)
  {
    NoKnownNeeds(steps, s);
    RootExactly(steps, t);
    KnownOf(steps, s);
    UniqueIsDistinct(steps);
    PrecedesRootExactly(Ids(steps), KnownNeeds(steps), order, s.id, t.id);
  }

  lemma RootExactly(steps: seq<Step>, t: Step)
    requires UniqueIds(steps) && t in steps && NamesSiblings(steps, t)
    ensures t.id in KnownNeeds(steps) && t.id in Ids(steps)
    ensures KnownNeeds(steps)[t.id] == [] <==> t.needs == []
  {
    KnownOf(steps, t);
    if t.needs != [] {
      SiblingIsKnown(steps, t);
    }
  }

  /** The promise that a step depending on unknown ids comes last is kept for a step all of whose
      needs are unknown if and only if every step that names no unknown id has no needs and stands
      before it in the document. */
  lemma UnknownLastExactly(steps: seq<Step>, order: seq<Id>, s: Step)
    requires UniqueIds(steps) && IsOrder(steps, order) && s in steps
    requires s.needs != [] && NamesNoSibling(steps, s)
    ensures forall t | t in steps :: t.id in order && t.id in Ids(steps)
    ensures (forall t | t in steps && NamesSiblings(steps, t) :: Position(order, t.id) < Position(order, s.id)) <==>
            (forall t | t in steps && NamesSiblings(steps, t) ::
               t.needs == [] && Position(Ids(steps), t.id) < Position(Ids(steps), s.id))
  {
    forall t | t in steps ensures t.id in order && t.id in Ids(steps) {
      KnownOf(steps, t);
      assert t.id in Elements(order);
    }
    assert s.needs[0] in s.needs;
    forall t | t in steps && NamesSiblings(steps, t)
      ensures Position(order, t.id) < Position(order, s.id) <==>
              t.needs == [] && Position(Ids(steps), t.id) < Position(Ids(steps), s.id)
    {
      SameStep(steps, s, t);
      PrecedesUnknownExactly(steps, order, s, t);
    }
  }

  lemma SameStep(steps: seq<Step>, s: Step, t: Step)
    requires UniqueIds(steps) && s in steps && t in steps
    ensures s.id == t.id ==> s == t
  {
    var i :| 0 <= i < |steps| && steps[i] == s;
    var j :| 0 <= j < |steps| && steps[j] == t;
  }

  /** The list with only the needs that name a sibling. */
  function OnlyKnown(steps: seq<Step>): (r: seq<Step>)
    ensures |r| == |steps| && Ids(r) == Ids(steps)
  {
    var ids := Elements(Ids(steps));
    var r := seq(|steps|, i requires 0 <= i < |steps| => steps[i].(needs := Known(ids, steps[i].needs)));
    assert Ids(r) == Ids(steps);
    r
  }

  lemma {:induction false} KnownTwice(ids: set<Id>, needs: seq<Id>)
    ensures Known(ids, Known(ids, needs)) == Known(ids, needs)
    decreases |needs|
  {
    if needs != [] {
      KnownTwice(ids, needs[1..]);
      assert ([needs[0]] + Known(ids, needs[1..]))[1..] == Known(ids, needs[1..]);
    }
  }

  /** Steps that name siblings and unknown ids alike: the whole order is the one of the list in which
      the unknown ids are not written. */
  lemma UnknownNeedsChangeNothing(steps: seq<Step>, order: seq<Id>)
    requires UniqueIds(steps)
    ensures IsOrder(steps, order) <==> IsOrder(OnlyKnown(steps), order)
  {
    var bare := OnlyKnown(steps);
    forall i, j | 0 <= i < j < |bare| ensures bare[i].id != bare[j].id {
      assert Ids(bare)[i] == Ids(steps)[i] && Ids(bare)[j] == Ids(steps)[j];
    }
    forall id | id in KnownNeeds(steps) ensures KnownNeeds(bare)[id] == KnownNeeds(steps)[id] {
      assert id in Elements(Ids(steps));
      var i :| 0 <= i < |steps| && Ids(steps)[i] == id;
      assert steps[i] in steps && bare[i] in bare && bare[i].id == id;
      KnownOf(steps, steps[i]);
      KnownOf(bare, bare[i]);
      KnownTwice(Elements(Ids(steps)), steps[i].needs);
    }
    assert KnownNeeds(bare) == KnownNeeds(steps);
  }

  /** A step that only names unknown ids comes before every step that waits for a sibling. */
  lemma UnknownNeedsComeFirst(steps: seq<Step>, order: seq<Id>, s: Step, t: Id)
    requires UniqueIds(steps) && IsOrder(steps, order) && s in steps && NamesNoSibling(steps, s)
    requires t in KnownNeeds(steps) && KnownNeeds(steps)[t] != []
    ensures s.id in order && t in order && Position(order, s.id) < Position(order, t)
  {
    NoKnownNeeds(steps, s);
    KnownOf(steps, s);
    assert t in Elements(Ids(steps)) && t in Elements(order);
    UniqueIsDistinct(steps);
    WaitsForSomething(KnownNeeds(steps), order, t);
    PrecedesExactly(Ids(steps), KnownNeeds(steps), order, t, s.id);
  }

  /** One step that names an unknown id, one without needs, and one that waits for it: the docstring
      would put the first of them last. */
  lemma UnknownNeedExample(steps: seq<Step>, order: seq<Id>)
    requires |steps| == 3 && Ids(steps) == ["a", "b", "c"] && IsOrder(steps, order)
    requires steps[0].needs == ["x"] && steps[1].needs == [] && steps[2].needs == ["b"]
    ensures "a" in order && "c" in order && Position(order, "a") < Position(order, "c")
  {
    assert steps[0].id == "a" && steps[1].id == "b" && steps[2].id == "c";
    UnknownFirstWhen(steps, order, steps[0], steps[1], steps[2]);
  }

  /** The same of every three steps of that shape. */
  lemma UnknownFirstWhen(steps: seq<Step>, order: seq<Id>, a: Step, b: Step, c: Step)
    requires steps == [a, b, c] && UniqueIds(steps) && IsOrder(steps, order)
    requires NamesNoSibling(steps, a) && c.needs == [b.id]
    ensures a.id in order && c.id in order && Position(order, a.id) < Position(order, c.id)
  {
    assert steps[0] in steps && steps[2] in steps && Ids(steps)[1] == b.id;
    SiblingIsKnown(steps, c);
    UnknownNeedsComeFirst(steps, order, a, c.id);
  }

  // ----- document order among ready steps ---------------------------------------------------------

  /** The plain reading of the docstring: at every moment the first ready step in the document. */
  predicate FirstInDocument(ids: seq<Id>, needs: Needs, order: seq<Id>) {
    && (forall x | x in order :: x in ids && x in needs)
    && forall i, j | 0 <= i < j < |order| && ReadyAt(needs[order[j]], order) <= i ::
         Position(ids, order[i]) < Position(ids, order[j])
  }

  /** A step that became ready later, while an earlier one still waited, comes after it in the document. */
  predicate NobodyOvertaken(ids: seq<Id>, needs: Needs, order: seq<Id>) {
    && (forall x | x in order :: x in ids && x in needs)
    && forall i, j | 0 <= i < j < |order| ::
         ReadyAt(needs[order[i]], order) < ReadyAt(needs[order[j]], order) <= i ==>
           Position(ids, order[i]) < Position(ids, order[j])
  }

  /** The order keeps to that reading if and only if no step becomes ready while a later one in the
      document is already waiting. */
  lemma ReadingsAgreeExactly(steps: seq<Step>, order: seq<Id>)
    requires UniqueIds(steps) && IsOrder(steps, order)
    ensures FirstInDocument(Ids(steps), KnownNeeds(steps), order)
            <==> NobodyOvertaken(Ids(steps), KnownNeeds(steps), order)
  {
    var ids, needs := Ids(steps), KnownNeeds(steps);
    forall x | x in order ensures x in ids && x in needs {
      assert x in Elements(order) && x in Elements(ids);
    }
    if NobodyOvertaken(ids, needs, order) {
      forall i, j | 0 <= i < j < |order| && ReadyAt(needs[order[j]], order) <= i
        ensures Position(ids, order[i]) < Position(ids, order[j])
      {
        assert Before(ids, needs, order, order[i], order[j]);
      }
    }
  }

  /** `ReadyAt` is the first moment at which everything needed has been emitted. */
  lemma {:induction false} ReadyExactly(needs: seq<Id>, order: seq<Id>, n: nat)
    requires Distinct(order) && n <= |order| && forall d | d in needs :: d in order
    ensures ReadyAt(needs, order) <= n <==> forall d | d in needs :: d in order[..n]
    decreases |needs|
  {
    if needs != [] {
      var init, last := needs[..|needs| - 1], needs[|needs| - 1];
      assert needs == init + [last];
      ReadyExactly(init, order, n);
      var p := Position(order, last);
      assert p < n ==> order[..n][p] == last;
    }
  }

  /** `c` needs `a` and stands before `a` and `b`: once `a` is emitted both are ready and `c` is first
      in the document, but `b` was queued before it. */
  lemma OvertakenExample(steps: seq<Step>, order: seq<Id>)
    requires |steps| == 3 && Ids(steps) == ["c", "a", "b"] && IsOrder(steps, order)
    requires steps[0].needs == ["a"] && steps[1].needs == [] && steps[2].needs == []
    ensures !FirstInDocument(Ids(steps), KnownNeeds(steps), order)
  {
    assert steps[0].id == "c" && steps[1].id == "a" && steps[2].id == "b";
    OvertakenWhen(steps, order, steps[0], steps[1], steps[2]);
  }

  /** The same of every three steps of that shape. */
  lemma OvertakenWhen(steps: seq<Step>, order: seq<Id>, c: Step, a: Step, b: Step)
    requires steps == [c, a, b] && UniqueIds(steps) && IsOrder(steps, order)
    requires c.needs == [a.id] && a.needs == [] && b.needs == []
    ensures !FirstInDocument(Ids(steps), KnownNeeds(steps), order)
  {
    var ids, needs := Ids(steps), KnownNeeds(steps);
    NeedsOfThree(steps, c, a, b);
    PrecedesExactly(ids, needs, order, b.id, a.id);
    PrecedesExactly(ids, needs, order, c.id, b.id);
    WaitsForSomething(needs, order, c.id);
    Overtaken(ids, needs, order, Position(order, a.id), Position(order, b.id), Position(order, c.id));
  }

  lemma NeedsOfThree(steps: seq<Step>, c: Step, a: Step, b: Step)
    requires steps == [c, a, b] && UniqueIds(steps)
    requires c.needs == [a.id] && a.needs == [] && b.needs == []
    ensures c.id in KnownNeeds(steps) && KnownNeeds(steps)[c.id] == [a.id]
    ensures a.id in KnownNeeds(steps) && KnownNeeds(steps)[a.id] == []
    ensures b.id in KnownNeeds(steps) && KnownNeeds(steps)[b.id] == []
    ensures Distinct(Ids(steps)) && c.id in Ids(steps) && a.id in Ids(steps) && b.id in Ids(steps)
    ensures Position(Ids(steps), c.id) == 0 && Position(Ids(steps), a.id) == 1 && Position(Ids(steps), b.id) == 2
  {
    assert steps[0] in steps && steps[1] in steps && steps[2] in steps;
    KnownOf(steps, c);
    KnownOf(steps, a);
    KnownOf(steps, b);
    assert steps[1].id in Elements(Ids(steps));
  }

  lemma Overtaken(ids: seq<Id>, needs: Needs, order: seq<Id>, a: nat, b: nat, c: nat)
    requires a < b < c < |order| && Distinct(order) && order[c] in needs && needs[order[c]] == [order[a]]
    requires order[b] in ids && order[c] in ids && Position(ids, order[c]) < Position(ids, order[b])
    ensures !FirstInDocument(ids, needs, order)
  {
    assert order[..b][a] == order[a];
    ReadyExactly(needs[order[c]], order, b);
  }
}
