/** The stable longest-first order of a literal table: Python's `sort(key=len, reverse=True)`. */
module StableSort {
  import opened Redaction

  function Insert(l: Literal, s: seq<Literal>): seq<Literal> {
    if s == [] then [l]
    else if |s[0].needle| <= |l.needle| then [l] + s
    else [s[0]] + Insert(l, s[1..])
  }

  function LongestFirst(s: seq<Literal>): seq<Literal> {
    if s == [] then [] else Insert(s[0], LongestFirst(s[1..]))
  }

  predicate Ordered(s: seq<Literal>) {
    forall i, j | 0 <= i < j < |s| :: |s[j].needle| <= |s[i].needle|
  }

  /** The entries of one length, in their order. */
  function OfLength(k: nat, s: seq<Literal>): seq<Literal> {
    if s == [] then []
    else if |s[0].needle| == k then [s[0]] + OfLength(k, s[1..])
    else OfLength(k, s[1..])
  }

  lemma {:induction false} OfLengthConcat(k: nat, s: seq<Literal>, t: seq<Literal>)
    ensures OfLength(k, s + t) == OfLength(k, s) + OfLength(k, t)
    decreases |s|
  {
    if s == [] {
      assert s + t == t;
    } else {
      assert (s + t)[1..] == s[1..] + t;
      OfLengthConcat(k, s[1..], t);
    }
  }

  lemma {:induction false} InsertIsOrdered(l: Literal, s: seq<Literal>)
    requires Ordered(s)
    ensures Ordered(Insert(l, s)) && multiset(Insert(l, s)) == multiset(s) + multiset{l}
    decreases |s|
  {
    if s == [] || |s[0].needle| <= |l.needle| {
      OrderedCons(l, s);
    } else {
      var rest := Insert(l, s[1..]);
      InsertIsOrdered(l, s[1..]);
      MultisetCons(s);
      forall x | x in rest ensures |x.needle| <= |s[0].needle| {
        assert x in multiset(rest);
        assert x == l || x in s[1..];
      }
      OrderedCons(s[0], rest);
    }
  }

  lemma OrderedCons(l: Literal, s: seq<Literal>)
    requires Ordered(s) && forall x | x in s :: |x.needle| <= |l.needle|
    ensures Ordered([l] + s) && multiset([l] + s) == multiset(s) + multiset{l}
  {
    assert forall i | 0 <= i < |s| :: s[i] in s;
  }

  lemma OfLengthCons(k: nat, l: Literal, s: seq<Literal>)
    ensures OfLength(k, [l] + s) == (if |l.needle| == k then [l] else []) + OfLength(k, s)
  {
    assert ([l] + s)[1..] == s;
  }

  lemma {:induction false} InsertIsStable(k: nat, l: Literal, s: seq<Literal>)
    requires Ordered(s)
    ensures OfLength(k, Insert(l, s)) == (if |l.needle| == k then [l] else []) + OfLength(k, s)
    decreases |s|
  {
    if s == [] || |s[0].needle| <= |l.needle| {
      assert Insert(l, s) == [l] + s;
      OfLengthCons(k, l, s);
    } else {
      InsertIsStable(k, l, s[1..]);
      OfLengthCons(k, s[0], Insert(l, s[1..]));
      assert |s[0].needle| != k || |l.needle| != k;
    }
  }

  lemma MultisetCons(s: seq<Literal>)
    requires s != []
    ensures multiset(s) == multiset(s[1..]) + multiset{s[0]}
  {
    assert s == [s[0]] + s[1..];
  }

  lemma {:induction false} LongestFirstIsOrdered(s: seq<Literal>)
    ensures Ordered(LongestFirst(s)) && multiset(LongestFirst(s)) == multiset(s)
    decreases |s|
  {
    if s != [] {
      var rest := s[1..];
      LongestFirstIsOrdered(rest);
      InsertIsOrdered(s[0], LongestFirst(rest));
      MultisetCons(s);
    }
  }

  lemma {:induction false} LongestFirstKeeps(k: nat, s: seq<Literal>)
    ensures OfLength(k, LongestFirst(s)) == OfLength(k, s)
    decreases |s|
  {
    if s != [] {
      LongestFirstKeeps(k, s[1..]);
      LongestFirstIsOrdered(s[1..]);
      InsertIsStable(k, s[0], LongestFirst(s[1..]));
      OfLengthCons(k, s[0], s[1..]);
      assert s == [s[0]] + s[1..];
    }
  }

  /** Sorting keeps the entries, orders them by length, and keeps the order within a length. */
  lemma LongestFirstIsStable(s: seq<Literal>)
    ensures Ordered(LongestFirst(s)) && multiset(LongestFirst(s)) == multiset(s)
    ensures forall k: nat :: OfLength(k, LongestFirst(s)) == OfLength(k, s)
  {
    LongestFirstIsOrdered(s);
    forall k: nat ensures OfLength(k, LongestFirst(s)) == OfLength(k, s) {
      LongestFirstKeeps(k, s);
    }
  }

  lemma {:induction false} OfLengthHas(k: nat, s: seq<Literal>, l: Literal)
    ensures l in OfLength(k, s) <==> l in s && |l.needle| == k
    decreases |s|
  {
    if s != [] {
      OfLengthHas(k, s[1..], l);
    }
  }

  /** An ordered table is determined by its entries of each length. */
  lemma {:induction false} OrderedIsUnique(s: seq<Literal>, t: seq<Literal>)
    requires Ordered(s) && Ordered(t) && forall k: nat :: OfLength(k, s) == OfLength(k, t)
    ensures s == t
    decreases |s|
  {
    if s == [] || t == [] {
      var r := if s == [] then t else s;
      if r != [] {
        assert OfLength(|r[0].needle|, s) == OfLength(|r[0].needle|, t);
        OfLengthHas(|r[0].needle|, r, r[0]);
      }
    } else {
      var k, k' := |s[0].needle|, |t[0].needle|;
      assert OfLength(k, s) == OfLength(k, t) && OfLength(k', s) == OfLength(k', t);
      OfLengthHas(k, t, s[0]);
      OfLengthHas(k', s, t[0]);
      assert k == k';
      assert OfLength(k, s)[0] == s[0] && OfLength(k, t)[0] == t[0];
      forall j: nat ensures OfLength(j, s[1..]) == OfLength(j, t[1..]) {
        var head := if k == j then [s[0]] else [];
        assert OfLength(j, s) == OfLength(j, t);
        assert OfLength(j, s) == head + OfLength(j, s[1..]) && OfLength(j, t) == head + OfLength(j, t[1..]);
        assert OfLength(j, s[1..]) == OfLength(j, s)[|head|..];
        assert OfLength(j, t[1..]) == OfLength(j, t)[|head|..];
      }
      OrderedIsUnique(s[1..], t[1..]);
    }
  }
}
