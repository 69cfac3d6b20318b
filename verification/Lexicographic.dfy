/** Comparing sequences the way strings and tuples are compared: at the first difference, a proper
    prefix first. */
module Lexicographic {
  /** Negative for less, 0 for equal, positive for greater. */
  ghost predicate IsOrder<T(!new)>(cmp: (T, T) -> int) {
    && (forall a, b :: cmp(a, b) == 0 <==> a == b)
    && (forall a, b :: cmp(a, b) < 0 <==> cmp(b, a) > 0)
    && (forall a, b, c :: cmp(a, b) < 0 && cmp(b, c) < 0 ==> cmp(a, c) < 0)
  }

  function Compare<T>(cmp: (T, T) -> int, a: seq<T>, b: seq<T>): int {
    if a == [] then (if b == [] then 0 else -1)
    else if b == [] then 1
    else if cmp(a[0], b[0]) != 0 then cmp(a[0], b[0])
    else Compare(cmp, a[1..], b[1..])
  }

  lemma {:induction false} EqualExactly<T(!new)>(cmp: (T, T) -> int, a: seq<T>, b: seq<T>)
    requires IsOrder(cmp)
    ensures Compare(cmp, a, b) == 0 <==> a == b
    decreases |a|
  {
    if a != [] && b != [] {
      EqualExactly(cmp, a[1..], b[1..]);
      assert a == [a[0]] + a[1..] && b == [b[0]] + b[1..];
    }
  }

  lemma {:induction false} Antisymmetric<T(!new)>(cmp: (T, T) -> int, a: seq<T>, b: seq<T>)
    requires IsOrder(cmp)
    ensures Compare(cmp, a, b) < 0 <==> Compare(cmp, b, a) > 0
    decreases |a|
  {
    if a != [] && b != [] {
      Antisymmetric(cmp, a[1..], b[1..]);
      assert cmp(a[0], b[0]) == 0 <==> cmp(b[0], a[0]) == 0;
    }
  }

  lemma {:induction false} Transitive<T(!new)>(cmp: (T, T) -> int, a: seq<T>, b: seq<T>, c: seq<T>)
    requires IsOrder(cmp) && Compare(cmp, a, b) < 0 && Compare(cmp, b, c) < 0
    ensures Compare(cmp, a, c) < 0
    decreases |a|
  {
    if a != [] && b != [] && c != [] {
      if cmp(a[0], b[0]) == 0 && cmp(b[0], c[0]) == 0 {
        assert a[0] == b[0] == c[0];
        Transitive(cmp, a[1..], b[1..], c[1..]);
      } else {
        assert cmp(a[0], c[0]) < 0;
      }
    }
  }

  /** The first difference is at `k`, and there `a` is less. */
  ghost predicate LessAt<T(!new)>(cmp: (T, T) -> int, a: seq<T>, b: seq<T>, k: nat) {
    k < |a| && k < |b| && a[..k] == b[..k] && cmp(a[k], b[k]) < 0
  }

  /** Less at the first difference, or a proper prefix. */
  ghost predicate Precedes<T(!new)>(cmp: (T, T) -> int, a: seq<T>, b: seq<T>) {
    a < b || exists k: nat :: LessAt(cmp, a, b, k)
  }

  lemma LessAtTail<T(!new)>(cmp: (T, T) -> int, a: seq<T>, b: seq<T>, k: nat)
    requires a != [] && b != [] && a[0] == b[0]
    ensures LessAt(cmp, a, b, k + 1) <==> LessAt(cmp, a[1..], b[1..], k)
  {
    if k < |a| - 1 && k < |b| - 1 {
      assert a[..k + 1] == [a[0]] + a[1..][..k] && b[..k + 1] == [b[0]] + b[1..][..k];
      assert a[1..][..k] == a[..k + 1][1..] && b[1..][..k] == b[..k + 1][1..];
    }
  }

  lemma PrefixTail<T>(a: seq<T>, b: seq<T>)
    requires a != [] && b != [] && a[0] == b[0]
    ensures a < b <==> a[1..] < b[1..]
  {
    assert a == [a[0]] + a[1..] && b == [b[0]] + b[1..];
  }

  lemma PrecedesTail<T(!new)>(cmp: (T, T) -> int, a: seq<T>, b: seq<T>)
    requires IsOrder(cmp) && a != [] && b != [] && a[0] == b[0]
    ensures Precedes(cmp, a, b) <==> Precedes(cmp, a[1..], b[1..])
  {
    PrefixTail(a, b);
    if k: nat :| LessAt(cmp, a, b, k) {
      assert cmp(a[0], b[0]) == 0;
      LessAtTail(cmp, a, b, k - 1);
    }
    if k: nat :| LessAt(cmp, a[1..], b[1..], k) {
      LessAtTail(cmp, a, b, k);
    }
  }

  lemma {:induction false} PrecedesExactly<T(!new)>(cmp: (T, T) -> int, a: seq<T>, b: seq<T>)
    requires IsOrder(cmp)
    ensures Compare(cmp, a, b) < 0 <==> Precedes(cmp, a, b)
    decreases |a|
  {
    if a != [] && b != [] {
      if cmp(a[0], b[0]) == 0 {
        PrecedesExactly(cmp, a[1..], b[1..]);
        PrecedesTail(cmp, a, b);
      } else {
        assert LessAt(cmp, a, b, 0) <==> cmp(a[0], b[0]) < 0;
        forall k: nat | 0 < k ensures !LessAt(cmp, a, b, k) {
          assert k < |a| && k < |b| ==> a[..k][0] == a[0] && b[..k][0] == b[0];
        }
      }
    }
  }

  /** The order of elements lifts to sequences. */
  lemma IsOrderOfSequences<T(!new)>(cmp: (T, T) -> int)
    requires IsOrder(cmp)
    ensures IsOrder((a, b) => Compare(cmp, a, b))
  {
    forall a, b: seq<T>
      ensures Compare(cmp, a, b) == 0 <==> a == b
      ensures Compare(cmp, a, b) < 0 <==> Compare(cmp, b, a) > 0
    {
      EqualExactly(cmp, a, b);
      Antisymmetric(cmp, a, b);
    }
    forall a, b, c: seq<T> | Compare(cmp, a, b) < 0 && Compare(cmp, b, c) < 0 ensures Compare(cmp, a, c) < 0 {
      Transitive(cmp, a, b, c);
    }
  }
}
