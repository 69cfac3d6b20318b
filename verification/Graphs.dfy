/** Sibling lists as graphs: what a cycle is, what a topological order is, and why having one is
    having no cycle. */
module Graphs {
  type Id = string

  datatype Join = All | Any | Always

  datatype Step = Step(id: Id, needs: seq<Id>, join: Join, hasWhen: bool, allowFailure: bool)

  type Needs = map<Id, seq<Id>>

  predicate Closed(needs: Needs) {
    forall s, d | s in needs && d in needs[s] :: d in needs
  }

  function Elements<T>(s: seq<T>): set<T> {
    set x | x in s
  }

  predicate Distinct<T(==)>(s: seq<T>) {
    forall i, j | 0 <= i < j < |s| :: s[i] != s[j]
  }

  /** Each step needs the next one. */
  predicate IsPath(needs: Needs, p: seq<Id>) {
    && (forall i | 0 <= i < |p| :: p[i] in needs)
    && (forall i | 0 <= i < |p| - 1 :: p[i + 1] in needs[p[i]])
  }

  predicate IsCycle(needs: Needs, c: seq<Id>) {
    2 <= |c| && c[0] == c[|c| - 1] && IsPath(needs, c)
  }

  ghost predicate Acyclic(needs: Needs) {
    forall c :: !IsCycle(needs, c)
  }

  /** Distinct steps, each after everything it needs. */
  predicate NeedsEarlier(needs: Needs, order: seq<Id>) {
    && Distinct(order)
    && (forall i | 0 <= i < |order| :: order[i] in needs && forall d | d in needs[order[i]] :: d in order[..i])
  }

  predicate Topological(needs: Needs, order: seq<Id>) {
    NeedsEarlier(needs, order) && Elements(order) == needs.Keys
  }

  lemma PathAppend(needs: Needs, p: seq<Id>, q: seq<Id>)
    requires IsPath(needs, p) && IsPath(needs, q)
    requires p != [] && q != [] ==> q[0] in needs[p[|p| - 1]]
    ensures IsPath(needs, p + q)
  {
    var r := p + q;
    forall i | 0 <= i < |r| - 1 ensures r[i + 1] in needs[r[i]] {
      if i + 1 < |p| {
        assert p[i + 1] in needs[p[i]];
      } else if i >= |p| {
        assert q[i - |p| + 1] in needs[q[i - |p|]];
      }
    }
  }

  lemma PathTail(needs: Needs, p: seq<Id>, i: nat)
    requires IsPath(needs, p) && i <= |p|
    ensures IsPath(needs, p[i..])
  {
    var q := p[i..];
    forall j | 0 <= j < |q| - 1 ensures q[j + 1] in needs[q[j]] {
      assert p[i + j + 1] in needs[p[i + j]];
    }
  }

  /** Coming back to a step of a path closes a cycle. */
  lemma BackEdge(needs: Needs, p: seq<Id>, i: nat, d: Id)
    requires IsPath(needs, p) && i < |p| && p[i] == d && d in needs[p[|p| - 1]]
    ensures IsCycle(needs, p[i..] + [d])
  {
    PathTail(needs, p, i);
    PathAppend(needs, p[i..], [d]);
  }

  function Position(order: seq<Id>, s: Id): (i: nat)
    requires s in order
    ensures i < |order| && order[i] == s
  {
    if order[0] == s then 0 else 1 + Position(order[1..], s)
  }

  lemma {:induction false} PathDescends(needs: Needs, order: seq<Id>, p: seq<Id>)
    requires NeedsEarlier(needs, order) && IsPath(needs, p) && 2 <= |p| && p[0] in order
    ensures p[|p| - 1] in order && Position(order, p[|p| - 1]) < Position(order, p[0])
    decreases |p|
  {
    var i := Position(order, p[0]);
    assert p[1] in order[..i];
    var j :| 0 <= j < i && order[j] == p[1];
    assert Position(order, p[1]) == j;
    if |p| > 2 {
      PathTail(needs, p, 1);
      PathDescends(needs, order, p[1..]);
    }
  }

  lemma TopologicalIsAcyclic(needs: Needs, order: seq<Id>)
    requires Topological(needs, order)
    ensures Acyclic(needs)
  {
    forall c ensures !IsCycle(needs, c) {
      if IsCycle(needs, c) {
        PathDescends(needs, order, c);
      }
    }
  }

  /** Any set of steps of an acyclic graph has one that needs nothing of the set. */
  lemma MinimalStep(needs: Needs, open: set<Id>) returns (s: Id)
    requires Acyclic(needs) && open <= needs.Keys && open != {}
    ensures s in open && forall d | d in needs[s] :: d !in open
  {
    var first :| first in open;
    s := Descend(needs, open, [first]);
  }

  lemma Descend(needs: Needs, open: set<Id>, p: seq<Id>) returns (s: Id)
    requires Acyclic(needs) && open <= needs.Keys
    requires p != [] && IsPath(needs, p) && Elements(p) <= open
    ensures s in open && forall d | d in needs[s] :: d !in open
    decreases open - Elements(p)
  {
    s := p[|p| - 1];
    assert s in Elements(p);
    if d :| d in needs[s] && d in open {
      if d in p {
        var i :| 0 <= i < |p| && p[i] == d;
        BackEdge(needs, p, i, d);
      }
      PathAppend(needs, p, [d]);
      assert Elements(p + [d]) == Elements(p) + {d};
      s := Descend(needs, open, p + [d]);
    }
  }

  // ----- step lists ---------------------------------------------------------------------------

  predicate UniqueIds(steps: seq<Step>) {
    forall i, j | 0 <= i < j < |steps| :: steps[i].id != steps[j].id
  }

  function Ids(steps: seq<Step>): (ids: seq<Id>)
    ensures |ids| == |steps| && forall i | 0 <= i < |steps| :: ids[i] == steps[i].id
  {
    seq(|steps|, i requires 0 <= i < |steps| => steps[i].id)
  }

  lemma UniqueIsDistinct(steps: seq<Step>)
    requires UniqueIds(steps)
    ensures Distinct(Ids(steps))
  {}

  /** The needs that name a sibling, in order. */
  function Known(ids: set<Id>, needs: seq<Id>): (k: seq<Id>)
    ensures forall d :: d in k <==> d in needs && d in ids
  {
    if needs == [] then []
    else if needs[0] in ids then [needs[0]] + Known(ids, needs[1..])
    else Known(ids, needs[1..])
  }

  /** `{s.id: s for s in steps}`. */
  function ById(steps: seq<Step>): (m: map<Id, Step>)
    ensures m.Keys == Elements(Ids(steps))
    ensures forall id | id in m :: m[id] in steps && m[id].id == id
    decreases |steps|
  {
    if steps == [] then map[]
    else
      var last := steps[|steps| - 1];
      assert Ids(steps) == Ids(steps[..|steps| - 1]) + [last.id];
      ById(steps[..|steps| - 1])[last.id := last]
  }

  /** What each step needs among its siblings. */
  function KnownNeeds(steps: seq<Step>): (needs: Needs)
    ensures Closed(needs) && needs.Keys == Elements(Ids(steps))
  {
    var m := ById(steps);
    map id | id in m :: Known(m.Keys, m[id].needs)
  }

  lemma {:induction false} ByIdUnique(steps: seq<Step>, i: nat)
    requires UniqueIds(steps) && i < |steps|
    ensures steps[i].id in ById(steps) && ById(steps)[steps[i].id] == steps[i]
    decreases |steps|
  {
    if i < |steps| - 1 {
      ByIdUnique(steps[..|steps| - 1], i);
    }
  }
}
