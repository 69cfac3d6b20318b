/** Which topological order Kahn's queue gives: steps in the order in which they become ready, and
    in document order where several become ready at once. */
module KahnOrder {
  import opened Graphs

  /** After how many emitted steps all the needs have been emitted. */
  function ReadyAt(needs: seq<Id>, out: seq<Id>): nat {
    if needs == [] then 0
    else
      var rest, last := ReadyAt(needs[..|needs| - 1], out), needs[|needs| - 1];
      var here := if last in out then Position(out, last) + 1 else 0;
      if rest < here then here else rest
  }

  /** `x` has its turn before `y`. */
  predicate Before(ids: seq<Id>, needs: Needs, out: seq<Id>, x: Id, y: Id) {
    && x in needs && y in needs && x in ids && y in ids
    && (var rx, ry := ReadyAt(needs[x], out), ReadyAt(needs[y], out);
        rx < ry || (rx == ry && Position(ids, x) < Position(ids, y)))
  }

  /** The queue is in turn, judged by what was emitted. */
  predicate InTurn(ids: seq<Id>, needs: Needs, out: seq<Id>, queue: seq<Id>) {
    forall i, j | 0 <= i < j < |queue| :: Before(ids, needs, out, queue[i], queue[j])
  }

  /** Everything each queued step needs has been emitted. */
  predicate AllReady(needs: Needs, out: seq<Id>, queue: seq<Id>) {
    forall x | x in queue :: x in needs && forall d | d in needs[x] :: d in out
  }

  predicate DocOrder(ids: seq<Id>, s: seq<Id>) {
    && (forall x | x in s :: x in ids)
    && forall i, j | 0 <= i < j < |s| :: Position(ids, s[i]) <= Position(ids, s[j])
  }

  lemma {:induction false} PositionStays(out: seq<Id>, more: seq<Id>, x: Id)
    requires x in out
    ensures x in out + more && Position(out + more, x) == Position(out, x)
    decreases |out|
  {
    if out[0] != x {
      PositionStays(out[1..], more, x);
      assert (out + more)[1..] == out[1..] + more;
    }
  }

  /** When a step became ready does not depend on what is emitted later. */
  lemma {:induction false} ReadyAtStays(needs: seq<Id>, out: seq<Id>, more: seq<Id>)
    requires forall d | d in needs :: d in out
    ensures ReadyAt(needs, out + more) == ReadyAt(needs, out) <= |out|
    decreases |needs|
  {
    if needs != [] {
      ReadyAtStays(needs[..|needs| - 1], out, more);
      PositionStays(out, more, needs[|needs| - 1]);
    }
  }

  lemma {:induction false} ReadyAtBound(needs: seq<Id>, out: seq<Id>)
    ensures ReadyAt(needs, out) <= |out|
    decreases |needs|
  {
    if needs != [] {
      ReadyAtBound(needs[..|needs| - 1], out);
    }
  }

  lemma {:induction false} ReadyLater(needs: seq<Id>, out: seq<Id>)
    requires exists d :: d in needs && d in out
    ensures ReadyAt(needs, out) > 0
    decreases |needs|
  {
    var init, last := needs[..|needs| - 1], needs[|needs| - 1];
    if last !in out {
      assert needs == init + [last];
      ReadyLater(init, out);
    }
  }

  /** A step that needs what was emitted last becomes ready with it. */
  lemma {:induction false} ReadyNow(needs: seq<Id>, out: seq<Id>, sid: Id)
    requires sid in needs && sid !in out
    ensures ReadyAt(needs, out + [sid]) == |out| + 1
    decreases |needs|
  {
    var init, last := needs[..|needs| - 1], needs[|needs| - 1];
    ReadyAtBound(init, out + [sid]);
    if last == sid {
      LastPosition(out, sid);
    } else {
      assert needs == init + [last];
      ReadyNow(init, out, sid);
    }
  }

  lemma {:induction false} LastPosition(out: seq<Id>, sid: Id)
    requires sid !in out
    ensures Position(out + [sid], sid) == |out|
    decreases |out|
  {
    if out != [] {
      assert (out + [sid])[1..] == out[1..] + [sid];
      LastPosition(out[1..], sid);
    }
  }

  lemma InTurnStays(ids: seq<Id>, needs: Needs, out: seq<Id>, sid: Id, queue: seq<Id>)
    requires InTurn(ids, needs, out, queue) && AllReady(needs, out, queue)
    ensures InTurn(ids, needs, out + [sid], queue)
  {
    forall i, j | 0 <= i < j < |queue| ensures Before(ids, needs, out + [sid], queue[i], queue[j]) {
      assert queue[i] in queue && queue[j] in queue;
      ReadyAtStays(needs[queue[i]], out, [sid]);
      ReadyAtStays(needs[queue[j]], out, [sid]);
    }
  }

  /** Steps released together, in document order, may be queued behind all others. */
  lemma ReleasedInTurn(ids: seq<Id>, needs: Needs, out: seq<Id>, sid: Id, queue: seq<Id>, released: seq<Id>)
    requires InTurn(ids, needs, out, queue) && AllReady(needs, out, queue) && sid !in out
    requires forall x | x in queue :: x in ids
    requires forall x | x in released :: x in needs && sid in needs[x]
    requires DocOrder(ids, released) && Distinct(released)
    ensures InTurn(ids, needs, out + [sid], queue + released)
  {
    InTurnStays(ids, needs, out, sid, queue);
    var all := queue + released;
    forall i, j | 0 <= i < j < |all| ensures Before(ids, needs, out + [sid], all[i], all[j]) {
      if j >= |queue| {
        var y := released[j - |queue|];
        assert y in released;
        ReadyNow(needs[y], out, sid);
        if i < |queue| {
          assert queue[i] in queue;
          ReadyAtStays(needs[queue[i]], out, [sid]);
        } else {
          var x := released[i - |queue|];
          assert x in released;
          ReadyNow(needs[x], out, sid);
          assert ids[Position(ids, x)] == x && ids[Position(ids, y)] == y;
        }
      }
    }
  }

  lemma PrefixMore(a: seq<Id>, b: seq<Id>, n: nat)
    requires n < |a| && n < |b| && a[..n] == b[..n] && a[n] == b[n]
    ensures a[..n + 1] == b[..n + 1]
  {
    assert a[..n + 1] == a[..n] + [a[n]] && b[..n + 1] == b[..n] + [b[n]];
  }

  lemma {:induction false} SamePrefix(ids: seq<Id>, needs: Needs, a: seq<Id>, b: seq<Id>, k: nat)
    requires Topological(needs, a) && Topological(needs, b) && k <= |a| && k <= |b|
    requires InTurn(ids, needs, a, a) && InTurn(ids, needs, b, b)
    ensures a[..k] == b[..k]
    decreases k
  {
    if k > 0 {
      SamePrefix(ids, needs, a, b, k - 1);
      NextIsSame(ids, needs, a, b, k - 1);
      PrefixMore(a, b, k - 1);
    }
  }

  lemma NextIsSame(ids: seq<Id>, needs: Needs, a: seq<Id>, b: seq<Id>, n: nat)
    requires Topological(needs, a) && Topological(needs, b) && n < |a| && n < |b| && a[..n] == b[..n]
    requires InTurn(ids, needs, a, a) && InTurn(ids, needs, b, b)
    ensures a[n] == b[n]
  {
    var x, y := a[n], b[n];
    var i := Later(needs, a, b, n);
    var j := Later(needs, b, a, n);
    SameMoment(needs, a, b, n);
    SameMoment(needs, b, a, n);
    assert i > n ==> Before(ids, needs, b, b[n], b[i]);
    assert j > n ==> Before(ids, needs, a, a[n], a[j]);
  }

  lemma Later(needs: Needs, a: seq<Id>, b: seq<Id>, n: nat) returns (i: nat)
    requires Topological(needs, a) && Topological(needs, b) && n < |a| && n < |b| && a[..n] == b[..n]
    ensures n <= i < |b| && b[i] == a[n]
  {
    assert a[n] in Elements(a);
    assert a[n] in Elements(b);
    i :| 0 <= i < |b| && b[i] == a[n];
    assert forall j | 0 <= j < n :: b[..n][j] == b[j] && a[..n][j] == a[j];
  }

  lemma SameMoment(needs: Needs, a: seq<Id>, b: seq<Id>, n: nat)
    requires NeedsEarlier(needs, a) && n < |a| && n < |b| && a[..n] == b[..n]
    ensures ReadyAt(needs[a[n]], a) == ReadyAt(needs[a[n]], b)
  {
    assert a == a[..n] + a[n..] && b == b[..n] + b[n..];
    ReadyAtStays(needs[a[n]], a[..n], a[n..]);
    ReadyAtStays(needs[a[n]], b[..n], b[n..]);
  }

  /** There is only one topological order all of whose steps have their turn. */
  lemma InTurnIsUnique(ids: seq<Id>, needs: Needs, a: seq<Id>, b: seq<Id>)
    requires Topological(needs, a) && Topological(needs, b)
    requires InTurn(ids, needs, a, a) && InTurn(ids, needs, b, b)
    ensures a == b
  {
    if |a| <= |b| {
      SamePrefix(ids, needs, a, b, |a|);
      NothingAfter(needs, a, b);
    } else {
      SamePrefix(ids, needs, a, b, |b|);
      NothingAfter(needs, b, a);
    }
  }

  lemma NothingAfter(needs: Needs, a: seq<Id>, b: seq<Id>)
    requires Topological(needs, a) && Topological(needs, b) && |a| <= |b| && a[..|a|] == b[..|a|]
    ensures a == b
  {
    assert a[..|a|] == a;
    assert forall x | x in b :: x in Elements(b);
    SameLength(a, b);
  }

  lemma {:induction false} DistinctCount(s: seq<Id>)
    requires Distinct(s)
    ensures |Elements(s)| == |s|
    decreases |s|
  {
    if s != [] {
      DistinctCount(s[1..]);
      assert s[0] !in s[1..];
      assert s == [s[0]] + s[1..];
      assert Elements(s) == {s[0]} + Elements(s[1..]);
    } else {
      assert Elements(s) == {};
    }
  }

  /** A distinct list that already holds everything has nothing after it. */
  lemma SameLength(a: seq<Id>, b: seq<Id>)
    requires a <= b && Distinct(b) && forall x | x in b :: x in Elements(a)
    ensures a == b
  {
    forall i, j | 0 <= i < j < |a| ensures a[i] != a[j] {
      assert b[i] != b[j];
    }
    DistinctCount(a);
    DistinctCount(b);
    assert forall i | 0 <= i < |a| :: b[i] == a[i];
    assert Elements(a) == Elements(b);
  }
}
