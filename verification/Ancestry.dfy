/** The validator's static ancestor sets: the memoised walk along `needs`. */
module Ancestry {
  import opened Graphs

  /** `b` can be reached from `a` along one or more needs. */
  ghost predicate Reaches(needs: Needs, a: Id, b: Id) {
    exists p :: PathBetween(needs, p, a, b)
  }

  predicate PathBetween(needs: Needs, p: seq<Id>, a: Id, b: Id) {
    2 <= |p| && IsPath(needs, p) && p[0] == a && p[|p| - 1] == b
  }

  /** The transitive closure of `needs` from `a`. */
  ghost function Closure(needs: Needs, a: Id): set<Id> {
    set b | b in needs && Reaches(needs, a, b)
  }

  lemma DirectReaches(needs: Needs, a: Id, d: Id)
    requires Closed(needs) && a in needs && d in needs[a]
    ensures Reaches(needs, a, d)
  {
    assert PathBetween(needs, [a, d], a, d);
  }

  lemma ReachesTransitive(needs: Needs, a: Id, b: Id, c: Id)
    requires Reaches(needs, a, b) && Reaches(needs, b, c)
    ensures Reaches(needs, a, c)
  {
    var p :| PathBetween(needs, p, a, b);
    var q :| PathBetween(needs, q, b, c);
    PathTail(needs, q, 1);
    PathAppend(needs, p, q[1..]);
    assert PathBetween(needs, p + q[1..], a, c);
  }

  /** Reaching is needing, or needing something that reaches. */
  lemma ReachesFirst(needs: Needs, a: Id, b: Id) returns (d: Id)
    requires Reaches(needs, a, b)
    ensures a in needs && d in needs[a] && (d == b || Reaches(needs, d, b))
  {
    var p :| PathBetween(needs, p, a, b);
    d := p[1];
    if |p| > 2 {
      PathTail(needs, p, 1);
      assert PathBetween(needs, p[1..], d, b);
    }
  }

  /** The closure is the direct needs and their closures. */
  lemma ClosureStep(needs: Needs, a: Id)
    requires Closed(needs) && a in needs
    ensures Closure(needs, a) == set b | b in needs && exists d | d in needs[a] :: b == d || b in Closure(needs, d)
  {
    forall b | b in Closure(needs, a) ensures exists d | d in needs[a] :: b == d || b in Closure(needs, d) {
      var d := ReachesFirst(needs, a, b);
      assert d in needs[a];
    }
    forall b, d | b in needs && d in needs[a] && (b == d || b in Closure(needs, d)) ensures b in Closure(needs, a) {
      DirectReaches(needs, a, d);
      if b != d {
        ReachesTransitive(needs, a, d, b);
      }
    }
  }

  lemma AcyclicNeverReachesItself(needs: Needs, a: Id)
    requires Acyclic(needs)
    ensures !Reaches(needs, a, a)
  {
    forall p ensures !PathBetween(needs, p, a, a) {
      assert !IsCycle(needs, p);
    }
  }

  /** What the walk may put in the memo: only ancestors, and all of them when there is no cycle. */
  ghost predicate Memo(needs: Needs, memo: map<Id, set<Id>>) {
    && memo.Keys <= needs.Keys
    && (forall s | s in memo :: memo[s] <= Closure(needs, s))
    && (Acyclic(needs) ==> forall s | s in memo :: memo[s] == Closure(needs, s))
  }

  class Walker {
    const needs: Needs
    var memo: map<Id, set<Id>>

    ghost predicate Valid()
      reads this
    {
      Closed(needs) && Memo(needs, memo)
    }

    constructor (needs: Needs)
      requires Closed(needs)
      ensures Valid() && this.needs == needs
    {
      this.needs := needs;
      memo := map[];
    }

    /** `walk`: `stack` holds the steps on the way down to `sid`. */
    method Walk(sid: Id, stack: set<Id>) returns (out: set<Id>)
      requires Valid() && sid in needs && sid in stack && stack <= needs.Keys
      requires forall x | x in stack :: x == sid || Reaches(needs, x, sid)
      modifies this
      ensures Valid() && sid in memo && out == memo[sid]
      decreases needs.Keys - stack
    {
      if sid in memo {
        return memo[sid];
      }
      out := {};
      for i := 0 to |needs[sid]|
        invariant Valid() && out <= Closure(needs, sid)
        invariant Acyclic(needs) ==> forall j | 0 <= j < i :: {needs[sid][j]} + Closure(needs, needs[sid][j]) <= out
      {
        var dep := needs[sid][i];
        DirectReaches(needs, sid, dep);
        if dep in stack {
          OnStack(needs, sid, dep);
          continue;
        }
        forall x | x in stack ensures Reaches(needs, x, dep) {
          if x != sid {
            ReachesTransitive(needs, x, sid, dep);
          }
        }
        var above := Walk(dep, stack + {dep});
        ClosureBelow(needs, sid, dep);
        out := out + {dep} + above;
      }
      if Acyclic(needs) {
        AllBelow(needs, sid, out);
      }
      memo := memo[sid := out];
    }
  }

  lemma OnStack(needs: Needs, sid: Id, dep: Id)
    requires Reaches(needs, sid, dep) && (dep == sid || Reaches(needs, dep, sid))
    ensures !Acyclic(needs)
  {
    if dep != sid {
      ReachesTransitive(needs, sid, dep, sid);
    }
    if Acyclic(needs) {
      AcyclicNeverReachesItself(needs, sid);
    }
  }

  lemma ClosureBelow(needs: Needs, sid: Id, dep: Id)
    requires Reaches(needs, sid, dep)
    ensures Closure(needs, dep) <= Closure(needs, sid)
  {
    forall b | b in Closure(needs, dep) ensures b in Closure(needs, sid) {
      ReachesTransitive(needs, sid, dep, b);
    }
  }

  lemma AllBelow(needs: Needs, sid: Id, out: set<Id>)
    requires Closed(needs) && sid in needs
    requires forall j | 0 <= j < |needs[sid]| :: {needs[sid][j]} + Closure(needs, needs[sid][j]) <= out
    ensures Closure(needs, sid) <= out
  {
    ClosureStep(needs, sid);
    forall b | b in Closure(needs, sid) ensures b in out {
      var d :| d in needs[sid] && (b == d || b in Closure(needs, d));
      var j :| 0 <= j < |needs[sid]| && needs[sid][j] == d;
      assert b in {d} + Closure(needs, d);
    }
  }

  /** `_ancestors`: the transitive closure of every step of an acyclic list, and never more than
      it on any other. */
  method Ancestors(steps: seq<Step>) returns (ancestors: map<Id, set<Id>>)
    ensures ancestors.Keys == KnownNeeds(steps).Keys
    ensures forall s | s in ancestors :: ancestors[s] <= Closure(KnownNeeds(steps), s)
    ensures Acyclic(KnownNeeds(steps)) ==> forall s | s in ancestors :: ancestors[s] == Closure(KnownNeeds(steps), s)
  {
    var needs := KnownNeeds(steps);
    ancestors := AllAncestors(Ids(steps), needs);
  }

  method AllAncestors(ids: seq<Id>, needs: Needs) returns (ancestors: map<Id, set<Id>>)
    requires Closed(needs) && Elements(ids) == needs.Keys
    ensures ancestors.Keys == needs.Keys && Memo(needs, ancestors)
  {
    var walker := new Walker(needs);
    ancestors := map[];
    for i := 0 to |ids|
      invariant walker.Valid() && walker.needs == needs && fresh(walker)
      invariant ancestors.Keys == Elements(ids[..i]) && Memo(needs, ancestors)
    {
      assert ids[i] in Elements(ids);
      var above := walker.Walk(ids[i], {ids[i]});
      ancestors := ancestors[ids[i] := above];
      assert ids[..i + 1] == ids[..i] + [ids[i]];
    }
    assert ids[..|ids|] == ids;
  }
}
