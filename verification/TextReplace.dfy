/** Literal replacement in text: `str.replace`, and when it commutes with cutting the text in two. */
module TextReplace {

  predicate OccursAt(t: string, n: string, i: int) {
    0 <= i && i + |n| <= |t| && t[i..i + |n|] == n
  }

  ghost predicate Contains(t: string, n: string) {
    exists i :: OccursAt(t, n, i)
  }

  /** No occurrence of `n` in `t` begins before `cut` and ends after it. */
  ghost predicate SafeCut(t: string, n: string, cut: int) {
    forall i | OccursAt(t, n, i) :: !(i < cut < i + |n|)
  }

  /** Leftmost, non-overlapping replacement of every `n` by `m`. */
  function Replace(t: string, n: string, m: string): string
    requires n != ""
  {
    if t == "" then ""
    else if n <= t then m + Replace(t[|n|..], n, m)
    else [t[0]] + Replace(t[1..], n, m)
  }

  /** `w` laid over `m` with `w[0]` above `m[d]` agrees wherever the two overlap. */
  predicate Agrees(w: string, m: string, d: int) {
    forall j | 0 <= j < |w| && 0 <= j + d < |m| :: w[j] == m[j + d]
  }

  /** `w` can lie over at least one character of `m`. */
  ghost predicate Overlaps(w: string, m: string) {
    exists d :: -|w| < d < |m| && Agrees(w, m, d)
  }

  /** `w` can lie over part of `m` and stick out of it: an occurrence of `w` that uses
      characters of an inserted `m` together with characters beside it. */
  ghost predicate Touches(w: string, m: string) {
    exists d :: -|w| < d < |m| && !(0 <= d && d + |w| <= |m|) && Agrees(w, m, d)
  }

  lemma OccursInTail(t: string, n: string, k: nat, i: nat)
    requires k <= |t|
    ensures OccursAt(t[k..], n, i) <==> OccursAt(t, n, i + k)
  {
    if i + k + |n| <= |t| {
      assert t[k..][i..i + |n|] == t[i + k..i + k + |n|];
    }
  }

  /** Cutting where no match straddles, replacing distributes over the two halves. */
  lemma {:induction false} ReplaceSplits(a: string, b: string, n: string, m: string)
    requires n != "" && SafeCut(a + b, n, |a|)
    ensures Replace(a + b, n, m) == Replace(a, n, m) + Replace(b, n, m)
    decreases |a|
  {
    if a == "" {
      assert a + b == b;
    } else {
      var k := if n <= a then |n| else 1;
      assert n <= a + b ==> OccursAt(a + b, n, 0);
      assert |n| <= |a| ==> (a + b)[..|n|] == a[..|n|];
      assert (a + b)[k..] == a[k..] + b;
      forall i | OccursAt(a[k..] + b, n, i) ensures !(i < |a[k..]| < i + |n|) {
        OccursInTail(a + b, n, k, i);
      }
      ReplaceSplits(a[k..], b, n, m);
    }
  }

  /** An occurrence is an agreement that does not stick out. */
  lemma OccursIffAgrees(t: string, w: string, i: int)
    requires 0 <= i && i + |w| <= |t|
    ensures OccursAt(t, w, i) <==> Agrees(w, t, i)
  {
    if Agrees(w, t, i) {
      assert t[i..i + |w|] == w;
    } else {
      var j :| 0 <= j < |w| && w[j] != t[j + i];
      assert t[i..i + |w|][j] != w[j];
    }
  }

  /** Agreement on a concatenation is agreement on its parts; what `w` does not lie over
      does not count. */
  lemma AgreesOnParts(w: string, x: string, y: string, d: int)
    ensures Agrees(w, x + y, d) <==> Agrees(w, x, d) && Agrees(w, y, d - |x|)
  {
    var t := x + y;
    assert forall j | 0 <= j < |w| && 0 <= j + d < |x| :: w[j] == t[j + d] <==> w[j] == x[j + d];
    assert forall j | 0 <= j < |w| && |x| <= j + d < |t| :: w[j] == t[j + d] <==> w[j] == y[j + d - |x|];
  }

  /** What lies before `w` does not count. */
  lemma AgreesAfter(w: string, t: string, k: nat, d: int)
    requires k <= |t|
    ensures k <= d && Agrees(w, t[k..], d - k) ==> Agrees(w, t, d)
  {
    assert t == t[..k] + t[k..];
    AgreesOnParts(w, t[..k], t[k..], d);
  }

  /** A middle piece of `w` that equals a whole replaced text never used a marker. */
  lemma {:induction false} PieceIsRaw(a: string, n: string, m: string, w: string, i: nat)
    requires n != "" && m != ""
    requires 0 < i && i + |Replace(a, n, m)| < |w| && Agrees(w, Replace(a, n, m), -(i as int))
    ensures Touches(w, m) || (|a| == |Replace(a, n, m)| && Agrees(w, a, -(i as int)))
    decreases |a|
  {
    if a != "" {
      if n <= a {
        assert Agrees(w, m, -(i as int));
      } else {
        PieceIsRaw(a[1..], n, m, w, i + 1);
      }
    }
  }

  /** A proper prefix of `w` that ends a replaced text also ends the raw text. */
  lemma {:induction false} SuffixIsRaw(a: string, n: string, m: string, w: string, k: nat)
    requires n != "" && m != ""
    requires 0 < k < |w| && k <= |Replace(a, n, m)| && Agrees(w, Replace(a, n, m), |Replace(a, n, m)| - k)
    ensures Touches(w, m) || (k <= |a| && Agrees(w, a, |a| - k))
    decreases |a|, 1
  {
    if n <= a {
      SuffixAfterMarker(a, n, m, w, k);
    } else {
      SuffixAfterCharacter(a, n, m, w, k);
    }
  }

  lemma {:induction false} SuffixAfterMarker(a: string, n: string, m: string, w: string, k: nat)
    requires n != "" && m != "" && n <= a
    requires 0 < k < |w| && k <= |Replace(a, n, m)| && Agrees(w, Replace(a, n, m), |Replace(a, n, m)| - k)
    ensures Touches(w, m) || (k <= |a| && Agrees(w, a, |a| - k))
    decreases |a|, 0
  {
    var d, rest := |Replace(a, n, m)| - k, Replace(a[|n|..], n, m);
    AgreesOnParts(w, m, rest, d);
    if k <= |rest| {
      SuffixIsRaw(a[|n|..], n, m, w, k);
      AgreesAfter(w, a, |n|, |a| - k);
    } else {
      assert Touches(w, m);
    }
  }

  lemma {:induction false} SuffixAfterCharacter(a: string, n: string, m: string, w: string, k: nat)
    requires n != "" && m != "" && !(n <= a)
    requires 0 < k < |w| && k <= |Replace(a, n, m)| && Agrees(w, Replace(a, n, m), |Replace(a, n, m)| - k)
    ensures Touches(w, m) || (k <= |a| && Agrees(w, a, |a| - k))
    decreases |a|, 0
  {
    var d, rest := |Replace(a, n, m)| - k, Replace(a[1..], n, m);
    AgreesOnParts(w, [a[0]], rest, d);
    if k <= |rest| {
      SuffixIsRaw(a[1..], n, m, w, k);
      AgreesAfter(w, a, 1, |a| - k);
    } else {
      PieceIsRaw(a[1..], n, m, w, 1);
      assert a == [a[0]] + a[1..];
      AgreesOnParts(w, [a[0]], a[1..], 0);
    }
  }

  /** A proper suffix of `w` that begins a replaced text also begins the raw text. */
  lemma {:induction false} PrefixIsRaw(b: string, n: string, m: string, w: string, k: nat)
    requires n != "" && m != ""
    requires 0 < k <= |w| <= k + |Replace(b, n, m)| && Agrees(w, Replace(b, n, m), -(k as int))
    ensures Touches(w, m) || (|w| <= k + |b| && Agrees(w, b, -(k as int)))
    decreases |b|
  {
    if k < |w| {
      if n <= b {
        assert Agrees(w, m, -(k as int));
      } else {
        PrefixIsRaw(b[1..], n, m, w, k + 1);
      }
    }
  }

  /** Replacing on both sides of a cut cannot create an occurrence of `w` across it. */
  lemma ReplaceKeepsCut(a: string, b: string, n: string, m: string, w: string)
    requires n != "" && m != "" && !Touches(w, m)
    requires SafeCut(a + b, w, |a|)
    ensures SafeCut(Replace(a, n, m) + Replace(b, n, m), w, |Replace(a, n, m)|)
  {
    var a', b' := Replace(a, n, m), Replace(b, n, m);
    forall i | OccursAt(a' + b', w, i) && i < |a'| < i + |w| ensures false {
      StraddleIsRaw(a, b, n, m, w, i);
    }
  }

  lemma StraddleIsRaw(a: string, b: string, n: string, m: string, w: string, i: int)
    requires n != "" && m != "" && !Touches(w, m)
    requires OccursAt(Replace(a, n, m) + Replace(b, n, m), w, i)
    requires i < |Replace(a, n, m)| < i + |w|
    ensures !SafeCut(a + b, w, |a|)
  {
    var a', b' := Replace(a, n, m), Replace(b, n, m);
    OccursIffAgrees(a' + b', w, i);
    var k := |a'| - i;
    SuffixIsRaw(a, n, m, w, k);
    PrefixIsRaw(b, n, m, w, k);
    OccursIffAgrees(a + b, w, |a| - k);
    assert OccursAt(a + b, w, |a| - k);
  }

  /** `w` lying on a replaced text from `i` on lies on a marker or on raw text. */
  lemma {:induction false} ReplaceAddsNothing(t: string, n: string, m: string, w: string, i: nat)
    requires n != "" && m != "" && w != ""
    requires i + |w| <= |Replace(t, n, m)| && Agrees(w, Replace(t, n, m), i)
    ensures Overlaps(w, m) || (w != n && exists j :: 0 <= j && j + |w| <= |t| && Agrees(w, t, j))
    decreases |t|
  {
    if t != "" {
      var step, head := if n <= t then |n| else 1, if n <= t then m else [t[0]];
      var rest := Replace(t[step..], n, m);
      AgreesOnParts(w, head, rest, i);
      if |head| <= i {
        ReplaceAddsNothing(t[step..], n, m, w, i - |head|);
        if j :| 0 <= j && j + |w| <= |t[step..]| && Agrees(w, t[step..], j) {
          assert t == t[..step] + t[step..];
          AgreesOnParts(w, t[..step], t[step..], j + step);
        }
      } else if n <= t {
        assert Agrees(w, m, i);
      } else {
        HeadIsRaw(t, n, m, w, 0);
        if Agrees(w, t, 0) && |w| <= |t| {
          OccursIffAgrees(t, w, 0);
          assert w <= t;
        }
      }
    }
  }

  /** `w` sticking out `k` characters to the left of a replaced text. */
  lemma {:induction false} HeadIsRaw(t: string, n: string, m: string, w: string, k: nat)
    requires n != "" && m != "" && k <= |w| <= k + |Replace(t, n, m)|
    requires Agrees(w, Replace(t, n, m), -(k as int))
    requires k == 0 ==> !(n <= t)
    ensures Overlaps(w, m) || (|w| <= k + |t| && Agrees(w, t, -(k as int)))
    decreases |t|
  {
    if k < |w| {
      if n <= t {
        assert Agrees(w, m, -(k as int));
      } else {
        HeadIsRaw(t[1..], n, m, w, k + 1);
      }
    }
  }

  /** Text without `n` is left alone. */
  lemma {:induction false} ReplaceWithoutMatch(t: string, n: string, m: string)
    requires n != "" && !Contains(t, n)
    ensures Replace(t, n, m) == t
    decreases |t|
  {
    if t != "" {
      assert OccursAt(t, n, 0) <==> n <= t;
      if Contains(t[1..], n) {
        TailOccurs(t, n);
      }
      ReplaceWithoutMatch(t[1..], n, m);
    }
  }

  lemma TailOccurs(t: string, n: string)
    requires t != "" && Contains(t[1..], n)
    ensures Contains(t, n)
  {
    var i :| OccursAt(t[1..], n, i);
    OccursInTail(t, n, 1, i);
  }

  lemma NoMatch(t: string, n: string, m: string)
    requires n != "" && forall i | 0 <= i && i + |n| <= |t| :: t[i] != n[0]
    ensures Replace(t, n, m) == t
  {
    forall i | 0 <= i && i + |n| <= |t| ensures !OccursAt(t, n, i) {
      assert t[i..i + |n|][0] != n[0];
    }
    ReplaceWithoutMatch(t, n, m);
  }

  /** One occurrence, with nothing like its first character before it and no room after it. */
  lemma ReplaceOnly(a: string, n: string, b: string, m: string)
    requires n != "" && n[0] !in a && |b| < |n|
    ensures Replace(a + n + b, n, m) == a + m + b
  {
    assert a + n + b == a + (n + b);
    forall i | OccursAt(a + (n + b), n, i) ensures !(i < |a| < i + |n|) {
      assert (a + (n + b))[i..i + |n|][0] == n[0];
    }
    ReplaceSplits(a, n + b, n, m);
    NoMatch(a, n, m);
    NoMatch(b, n, m);
    assert (n + b)[..|n|] == n && (n + b)[|n|..] == b;
    assert Replace(n + b, n, m) == m + Replace(b, n, m);
  }
}
