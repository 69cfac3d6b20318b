/** The literal half of the redactor: an ordered table of secret values, each replaced by its
    marker, one after the other. */
module Redaction {
  import opened TextReplace

  datatype Literal = Literal(needle: string, marker: string)

  predicate Table(lits: seq<Literal>) {
    forall l | l in lits :: l.needle != "" && l.marker != ""
  }

  /** Every known value replaced, in table order, each one in the result of those before it. */
  function RedactAll(lits: seq<Literal>, t: string): string
    requires Table(lits)
  {
    if lits == [] then t else RedactAll(lits[1..], Replace(t, lits[0].needle, lits[0].marker))
  }

  lemma {:induction false} RedactAppend(lits: seq<Literal>, l: Literal, t: string)
    requires Table(lits + [l])
    ensures Table(lits)
    ensures RedactAll(lits + [l], t) == Replace(RedactAll(lits, t), l.needle, l.marker)
    decreases |lits|
  {
    assert forall x | x in lits :: x in lits + [l];
    if lits == [] {
      assert lits + [l] == [l];
      assert RedactAll([], Replace(t, l.needle, l.marker)) == Replace(t, l.needle, l.marker);
    } else {
      assert (lits + [l])[1..] == lits[1..] + [l];
      RedactAppend(lits[1..], l, Replace(t, lits[0].needle, lits[0].marker));
    }
  }

  method RedactValues(lits: seq<Literal>, text: string) returns (r: string)
    requires Table(lits)
    ensures r == RedactAll(lits, text)
  {
    if text == "" || lits == [] {
      RedactEmpty(lits);
      return text;
    }
    r := text;
    for i := 0 to |lits|
      invariant Table(lits[..i]) && r == RedactAll(lits[..i], text)
    {
      assert lits[..i + 1] == lits[..i] + [lits[i]];
      RedactAppend(lits[..i], lits[i], text);
      var index := Find(r, lits[i].needle, 0);
      if index >= 0 {
        r := Replace(r, lits[i].needle, lits[i].marker);
      } else {
        ReplaceWithoutMatch(r, lits[i].needle, lits[i].marker);
      }
    }
    assert lits[..|lits|] == lits;
  }

  lemma {:induction false} RedactEmpty(lits: seq<Literal>)
    requires Table(lits)
    ensures RedactAll(lits, "") == ""
  {
    if lits != [] {
      RedactEmpty(lits[1..]);
    }
  }

  /** `str.find`: the first occurrence at or after `start`, or -1. */
  function Find(t: string, n: string, start: nat): (r: int)
    ensures r >= 0 ==> start <= r && OccursAt(t, n, r)
    ensures forall i | start <= i && OccursAt(t, n, i) :: 0 <= r <= i
    decreases |t| - start
  {
    if start + |n| > |t| then -1
    else if t[start..start + |n|] == n then start
    else Find(t, n, start + 1)
  }

  // ----- cutting ------------------------------------------------------------------------------

  ghost predicate SafeFor(lits: seq<Literal>, t: string, cut: int) {
    forall l | l in lits :: SafeCut(t, l.needle, cut)
  }

  /** No needle can match across a marker inserted earlier in the same pass over the table. */
  ghost predicate SeamFree(lits: seq<Literal>) {
    forall i, j | 0 <= i < j < |lits| :: !Touches(lits[j].needle, lits[i].marker)
  }

  /** At a cut no value straddles, redaction distributes over the two halves. */
  lemma {:induction false} RedactSplits(lits: seq<Literal>, a: string, b: string)
    requires Table(lits) && SeamFree(lits) && SafeFor(lits, a + b, |a|)
    ensures RedactAll(lits, a + b) == RedactAll(lits, a) + RedactAll(lits, b)
    decreases |lits|
  {
    if lits != [] {
      var n, m := lits[0].needle, lits[0].marker;
      ReplaceSplits(a, b, n, m);
      forall l | l in lits[1..] ensures SafeCut(Replace(a, n, m) + Replace(b, n, m), l.needle, |Replace(a, n, m)|) {
        var j :| 0 < j < |lits| && lits[j] == l;
        ReplaceKeepsCut(a, b, n, m, l.needle);
      }
      RedactSplits(lits[1..], Replace(a, n, m), Replace(b, n, m));
    }
  }

  // ----- leaks --------------------------------------------------------------------------------

  /** No needle can be found in, or across the edge of, its own or a later marker. */
  ghost predicate LeakFree(lits: seq<Literal>) {
    forall i, j | 0 <= i <= j < |lits| :: !Overlaps(lits[i].needle, lits[j].marker)
  }

  lemma {:induction false} RedactAddsNothing(lits: seq<Literal>, t: string, w: string)
    requires Table(lits) && w != "" && Contains(RedactAll(lits, t), w)
    requires forall l | l in lits :: !Overlaps(w, l.marker)
    ensures Contains(t, w) && forall l | l in lits :: l.needle != w
    decreases |lits|
  {
    if lits != [] {
      var n, m := lits[0].needle, lits[0].marker;
      RedactAddsNothing(lits[1..], Replace(t, n, m), w);
      var i :| OccursAt(Replace(t, n, m), w, i);
      OccursIffAgrees(Replace(t, n, m), w, i);
      ReplaceAddsNothing(t, n, m, w, i);
      var j :| 0 <= j && j + |w| <= |t| && Agrees(w, t, j);
      OccursIffAgrees(t, w, j);
      assert forall l | l in lits :: l == lits[0] || l in lits[1..];
    }
  }

  /** The redacted text contains none of the values. */
  lemma {:induction false} NothingLeaks(lits: seq<Literal>, t: string, l: Literal)
    requires Table(lits) && LeakFree(lits) && l in lits
    ensures !Contains(RedactAll(lits, t), l.needle)
    decreases |lits|
  {
    var n, m := lits[0].needle, lits[0].marker;
    if l in lits[1..] {
      NothingLeaks(lits[1..], Replace(t, n, m), l);
    } else if Contains(RedactAll(lits, t), l.needle) {
      assert forall x | x in lits :: exists j | 0 <= j < |lits| :: lits[j] == x;
      RedactAddsNothing(lits, t, l.needle);
    }
  }

  lemma {:induction false} RedactWithoutMatch(lits: seq<Literal>, t: string)
    requires Table(lits) && forall l | l in lits :: !Contains(t, l.needle)
    ensures RedactAll(lits, t) == t
    decreases |lits|
  {
    if lits != [] {
      ReplaceWithoutMatch(t, lits[0].needle, lits[0].marker);
      RedactWithoutMatch(lits[1..], t);
    }
  }

  /** Redacting twice is redacting once. */
  lemma RedactTwice(lits: seq<Literal>, t: string)
    requires Table(lits) && LeakFree(lits)
    ensures RedactAll(lits, RedactAll(lits, t)) == RedactAll(lits, t)
  {
    forall l | l in lits ensures !Contains(RedactAll(lits, t), l.needle) {
      NothingLeaks(lits, t, l);
    }
    RedactWithoutMatch(lits, RedactAll(lits, t));
  }

  // ----- bracket-free values ------------------------------------------------------------------

  /** The marker that stands for the secret called `name`. */
  function Marker(name: string): string {
    "[REDACTED:" + name + "]"
  }

  predicate BracketFree(n: string) {
    '[' !in n && ']' !in n
  }

  /** A table whose markers are markers and whose values hold no bracket. */
  ghost predicate BracketFreeTable(lits: seq<Literal>) {
    forall l | l in lits :: l.needle != "" && BracketFree(l.needle) && exists name :: l.marker == Marker(name)
  }

  lemma SharedCharacter(w: string, m: string, d: int, k: nat)
    requires Agrees(w, m, d) && k < |m| && 0 <= k - d < |w|
    ensures m[k] in w
  {
    assert w[k - d] == m[k];
  }

  lemma BracketFreeTouchesNothing(w: string, name: string)
    requires BracketFree(w)
    ensures !Touches(w, Marker(name))
    ensures Overlaps(w, Marker(name)) ==> Contains(Marker(name), w)
  {
    var m := Marker(name);
    forall d | -|w| < d < |m| && Agrees(w, m, d) ensures 0 <= d && d + |w| <= |m| {
      if d < 0 {
        SharedCharacter(w, m, d, 0);
      } else if |m| < d + |w| {
        SharedCharacter(w, m, d, |m| - 1);
      }
    }
    if d :| -|w| < d < |m| && Agrees(w, m, d) {
      OccursIffAgrees(m, w, d);
    }
  }

  lemma BracketFreeIsSeamFree(lits: seq<Literal>)
    requires BracketFreeTable(lits)
    ensures Table(lits) && SeamFree(lits)
  {
    forall i, j | 0 <= i < j < |lits| ensures !Touches(lits[j].needle, lits[i].marker) {
      assert lits[i] in lits && lits[j] in lits;
      var name :| lits[i].marker == Marker(name);
      BracketFreeTouchesNothing(lits[j].needle, name);
    }
    forall l | l in lits ensures l.marker != "" {
      var name :| l.marker == Marker(name);
    }
  }

  lemma BracketFreeIsLeakFree(lits: seq<Literal>)
    requires BracketFreeTable(lits)
    requires forall i, j | 0 <= i <= j < |lits| :: !Contains(lits[j].marker, lits[i].needle)
    ensures LeakFree(lits)
  {
    forall i, j | 0 <= i <= j < |lits| ensures !Overlaps(lits[i].needle, lits[j].marker) {
      assert lits[i] in lits && lits[j] in lits;
      var name :| lits[j].marker == Marker(name);
      BracketFreeTouchesNothing(lits[i].needle, name);
    }
  }

  /** For one bracket-free value the condition is exact: it never leaks if and only if its
      marker does not spell it. */
  lemma SingleValueLeaksExactly(n: string, name: string)
    requires n != "" && BracketFree(n)
    ensures (forall t :: !Contains(Replace(t, n, Marker(name)), n)) <==> !Contains(Marker(name), n)
  {
    if Contains(Marker(name), n) {
      ReplaceWhole(n, Marker(name));
      var i :| OccursAt(Marker(name), n, i);
      assert OccursAt(Replace(n, n, Marker(name)), n, i);
    } else {
      forall t ensures !Contains(Replace(t, n, Marker(name)), n) {
        SingleValueStays(t, n, name);
      }
    }
  }

  lemma ReplaceWhole(n: string, m: string)
    requires n != ""
    ensures Replace(n, n, m) == m
  {
    assert n[|n|..] == "" && m + "" == m;
  }

  lemma SingleValueStays(t: string, n: string, name: string)
    requires n != "" && BracketFree(n) && !Contains(Marker(name), n)
    ensures !Contains(Replace(t, n, Marker(name)), n)
  {
    BracketFreeTouchesNothing(n, name);
    var lits := [Literal(n, Marker(name))];
    assert RedactAll(lits, t) == RedactAll([], Replace(t, n, Marker(name)));
    NothingLeaks(lits, t, lits[0]);
  }
}
