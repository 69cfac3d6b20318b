/** What a failed step does to its siblings, as nested scopes state it. */
module FailurePolicy {
  datatype Policy = Continue | Drain | FailFast

  function Rank(p: Policy): nat {
    match p
    case Continue => 0
    case Drain => 1
    case FailFast => 2
  }

  predicate AsStrict(p: Policy, q: Policy) {
    Rank(q) <= Rank(p)
  }

  function Stricter(p: Policy, q: Policy): Policy {
    if AsStrict(p, q) then p else q
  }

  /** A workflow either wrote the key or accepts the default. */
  datatype Defaults = Silent | States(policy: Policy) {
    function Value(): Policy {
      if States? then policy else Drain
    }
  }

  /** The strictest policy stated along a chain of scopes, outermost first; `Continue` if none is. */
  function Strictest(chain: seq<Defaults>): Policy {
    if chain == [] then Continue
    else
      var rest, last := Strictest(chain[..|chain| - 1]), chain[|chain| - 1];
      if last.States? then Stricter(last.policy, rest) else rest
  }

  predicate SomeStated(chain: seq<Defaults>) {
    exists d | d in chain :: d.States?
  }

  /** What is in force at the end of a chain: the strictest statement, or the default without one. */
  function InForce(chain: seq<Defaults>): Policy {
    if SomeStated(chain) then Strictest(chain) else Drain
  }

  class ExecScope {
    const parent: ExecScope?
    const defaults: Defaults
    const floor: Policy
    const onStepFailure: Policy

    /** The defaults of every scope from the root to this one. */
    ghost const chain: seq<Defaults>

    ghost predicate Valid() {
      && chain == (if parent == null then [] else parent.chain) + [defaults]
      && floor == Strictest(chain) && onStepFailure == InForce(chain)
    }

    constructor (defaults: Defaults, parent: ExecScope?)
      requires parent == null || parent.Valid()
      ensures Valid() && this.defaults == defaults && this.parent == parent
    {
      var stated := if defaults.States? then defaults.policy else Continue;
      var below := if parent == null then Continue else parent.floor;
      this.parent, this.defaults := parent, defaults;
      floor := Stricter(stated, below);
      onStepFailure :=
        if parent == null then defaults.Value()
        else if defaults.Silent? then parent.onStepFailure
        else Stricter(parent.floor, defaults.policy);
      chain := (if parent == null then [] else parent.chain) + [defaults];
      new;
      StrictestSnoc(if parent == null then [] else parent.chain, defaults);
    }

    /** A loop or each body reuses the defaults of its parent; an included workflow brings its own. */
    method Child(own: Defaults, reuse: bool) returns (child: ExecScope)
      requires Valid()
      ensures fresh(child) && child.Valid() && child.parent == this
      ensures child.chain == chain + [if reuse then defaults else own]
      ensures reuse ==> child.onStepFailure == onStepFailure && child.floor == floor
    {
      child := new ExecScope(if reuse then defaults else own, this);
      if reuse {
        ReuseInherits(chain);
      }
    }
  }

  lemma StrictestSnoc(chain: seq<Defaults>, d: Defaults)
    ensures Strictest(chain + [d]) == if d.States? then Stricter(d.policy, Strictest(chain)) else Strictest(chain)
    ensures SomeStated(chain + [d]) <==> d.States? || SomeStated(chain)
    ensures !SomeStated(chain) ==> Strictest(chain) == Continue
  {
    assert (chain + [d])[..|chain|] == chain;
    assert forall x :: x in chain + [d] <==> x in chain || x == d;
    StrictestExactly(chain);
  }

  /** The strictest statement is one of those made, and at least as strict as each of them. */
  lemma {:induction false} StrictestExactly(chain: seq<Defaults>)
    ensures forall d | d in chain && d.States? :: AsStrict(Strictest(chain), d.policy)
    ensures SomeStated(chain) ==> States(Strictest(chain)) in chain
    ensures !SomeStated(chain) ==> Strictest(chain) == Continue
    decreases |chain|
  {
    if chain != [] {
      var init, last := chain[..|chain| - 1], chain[|chain| - 1];
      StrictestExactly(init);
      assert chain == init + [last];
      assert forall d :: d in chain <==> d in init || d == last;
      if last.States? && !SomeStated(init) {
        assert Strictest(chain) == last.policy;
      }
    }
  }

  /** Nesting only tightens: what is in force is at least as strict as every policy stated by the
      scope or an enclosing one. */
  lemma OnlyTightens(chain: seq<Defaults>, d: Defaults)
    requires d in chain && d.States?
    ensures AsStrict(InForce(chain), d.policy)
  {
    StrictestExactly(chain);
  }

  /** And it is nothing stricter than that: one of the policies stated, or `drain` when there is none. */
  lemma InForceExactly(chain: seq<Defaults>)
    ensures SomeStated(chain) ==> States(InForce(chain)) in chain
    ensures !SomeStated(chain) ==> InForce(chain) == Drain
  {
    StrictestExactly(chain);
  }

  /** Hence what is in force inside is at least as strict as outside, except exactly when nobody
      outside stated a policy and the inner scope states `Continue`. */
  lemma LoosensExactly(chain: seq<Defaults>, d: Defaults)
    ensures !AsStrict(InForce(chain + [d]), InForce(chain)) <==> !SomeStated(chain) && d == States(Continue)
  {
    StrictestSnoc(chain, d);
  }

  /** A body that reuses the defaults of its parent gets exactly the policy of its parent. */
  lemma ReuseInherits(chain: seq<Defaults>)
    requires chain != []
    ensures var d := chain[|chain| - 1];
            InForce(chain + [d]) == InForce(chain) && Strictest(chain + [d]) == Strictest(chain)
  {
    var d := chain[|chain| - 1];
    StrictestSnoc(chain, d);
    StrictestExactly(chain);
    assert d in chain;
  }
}
