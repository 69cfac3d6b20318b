/** Exactly when the chunk law of a stream can fail: a value stored after another one's marker that
    it could match across. */
module StreamSeams {
  import opened TextReplace
  import opened Redaction
  import opened StreamRedaction

  /** A value called `name`, and a second one that is not longer. */
  function Two(k: string, name: string, w: string, other: string): seq<Literal> {
    [Literal(k, Marker(name)), Literal(w, Marker(other))]
  }

  ghost predicate ChunkLaw(lits: seq<Literal>, chunks: seq<string>)
    requires Table(lits)
  {
    StreamOut(lits, chunks) == RedactAll(lits, Concat(chunks))
  }

  /** Whatever longer value is called `name`, `w` may follow it in the table. */
  ghost predicate MayFollow(w: string, name: string)
    requires w != ""
  {
    forall k: string, other: string | |w| <= |k| :: Lawful(Two(k, name, w, other))
  }

  // ----- small facts ----------------------------------------------------------------------------

  lemma RedactTwo(lits: seq<Literal>, t: string)
    requires Table(lits) && |lits| == 2
    ensures RedactAll(lits, t)
         == Replace(Replace(t, lits[0].needle, lits[0].marker), lits[1].needle, lits[1].marker)
  {
    assert lits[1..][1..] == [];
    assert RedactAll(lits[1..], Replace(t, lits[0].needle, lits[0].marker))
        == RedactAll([], Replace(Replace(t, lits[0].needle, lits[0].marker), lits[1].needle, lits[1].marker));
  }

  lemma {:induction false} ReplaceGrows(t: string, n: string, m: string)
    requires n != ""
    ensures |n| <= |m| ==> |t| <= |Replace(t, n, m)|
    ensures |m| <= |n| ==> |Replace(t, n, m)| <= |t|
    decreases |t|
  {
    if t != "" {
      ReplaceGrows(if n <= t then t[|n|..] else t[1..], n, m);
    }
  }

  /** Replacing what occurs changes the text. */
  lemma {:induction false} ReplaceChanges(t: string, n: string, m: string)
    requires n != "" && m != n && Contains(t, n)
    ensures Replace(t, n, m) != t
    decreases |t|
  {
    if n <= t {
      ReplaceGrows(t[|n|..], n, m);
      assert t == n + t[|n|..];
      if |m| == |n| {
        assert Replace(t, n, m)[..|n|] == m;
      }
    } else {
      var i :| OccursAt(t, n, i);
      assert i > 0;
      OccursInTail(t, n, 1, i - 1);
      ReplaceChanges(t[1..], n, m);
      assert t == [t[0]] + t[1..];
      assert Replace(t, n, m)[1..] == Replace(t[1..], n, m);
    }
  }

  lemma MarkerBrackets(name: string)
    requires BracketFree(name)
    ensures var m := Marker(name);
            m[0] == '[' && m[|m| - 1] == ']'
            && (forall x | 0 < x < |m| :: m[x] != '[') && (forall x | 0 <= x < |m| - 1 :: m[x] != ']')
  {
    var m, open := Marker(name), "[REDACTED:";
    assert open[0] == '[' && open[1] == 'R' && open[2] == 'E' && open[3] == 'D' && open[4] == 'A' && open[5] == 'C'
           && open[6] == 'T' && open[7] == 'E' && open[8] == 'D' && open[9] == ':';
    forall x | 10 <= x < |m| - 1 ensures m[x] in name {
      assert m[x] == name[x - 10];
    }
    assert forall x | 0 <= x < 10 :: m[x] == open[x];
  }

  /** A value that sticks out of a marker holds one of its brackets, so it is not inside it too. */
  lemma NotInsideToo(w: string, name: string, d: int)
    requires BracketFree(name)
    requires var m := Marker(name); -|w| < d < |m| && !(0 <= d && d + |w| <= |m|) && Agrees(w, m, d)
    ensures !Contains(Marker(name), w)
  {
    var m := Marker(name);
    MarkerBrackets(name);
    var j := if d < 0 then -d else |m| - 1 - d;
    assert w[j] == m[j + d];
    forall e | 0 <= e && e + |w| <= |m| ensures !OccursAt(m, w, e) {
      assert m[e..e + |w|][j] == m[e + j];
    }
  }

  /** Too short to hold either value. */
  lemma ShortStays(k: string, name: string, w: string, other: string, t: string)
    requires w != "" && |w| <= |k| && |t| < |w|
    ensures RedactAll(Two(k, name, w, other), t) == t
  {
    RedactWithoutMatch(Two(k, name, w, other), t);
  }

  // ----- the counterexample ---------------------------------------------------------------------

  /** `k` opens with a character found nowhere else in the two values, and no beginning of `w` ends it. */
  ghost predicate Detached(k: string, w: string) {
    && k != "" && k[0] !in k[1..] && k[0] !in w
    && forall j: nat | 0 < j :: !OpenTail(k, w, j)
  }

  lemma FirstChunk(k: string, name: string, w: string, other: string, p: string)
    requires w != "" && 2 <= |k| && |w| <= |k| && Detached(k, w) && |p| < |w| && k[0] !in p
    ensures var lits := Two(k, name, w, other);
            FeedOut(lits, "", p + [k[0]]) == p && FeedRest(lits, "", p + [k[0]]) == [k[0]]
  {
    var lits, a, raw := Two(k, name, w, other), k[0], p + [k[0]];
    assert forall i | 0 < i < |k| :: k[i] == k[1..][i - 1];
    assert OpenTail(raw, k, 1);
    forall l, j: nat | l in lits && 1 < j ensures !OpenTail(raw, l.needle, j) {
      if j <= |raw| && j < |l.needle| {
        assert raw[|raw| - j..][j - 1] == a;
        assert l.needle[..j][j - 1] == l.needle[j - 1] != a;
      }
    }
    forall l, i | l in lits && OccursAt(raw, l.needle, i) ensures !(i < |p| < i + |l.needle|) {
      assert raw[i..i + |l.needle|][|l.needle| - 1] == l.needle[|l.needle| - 1] != a;
    }
    HoldThenKeepIsBoundary(lits, raw, 1, |p|);
    assert "" + raw == raw && raw[..|p|] == p && raw[|p|..] == [a];
    ShortStays(k, name, w, other, p);
  }

  lemma NoneOpen(k: string, name: string, w: string, other: string)
    requires w != "" && |w| <= |k| && Detached(k, w)
    ensures Boundary(Two(k, name, w, other), k) == |k|
  {
    var lits := Two(k, name, w, other);
    forall j: nat | 0 < j ensures !OpenTail(k, k, j) {
      if j < |k| {
        assert k[|k| - j..][0] == k[1..][|k| - j - 1] != k[..j][0];
      }
    }
    forall l | l in lits ensures SafeCut(k, l.needle, |k|) {}
    HoldThenKeepIsBoundary(lits, k, 0, |k|);
  }

  lemma SecondChunk(k: string, name: string, w: string, other: string)
    requires w != "" && |w| <= |k| && Detached(k, w) && 2 <= |k| && !Contains(Marker(name), w)
    ensures var lits := Two(k, name, w, other);
            FeedOut(lits, [k[0]], k[1..]) == Marker(name) && FeedRest(lits, [k[0]], k[1..]) == ""
  {
    var lits, m := Two(k, name, w, other), Marker(name);
    NoneOpen(k, name, w, other);
    assert [k[0]] + k[1..] == k && k[..|k|] == k && k[|k|..] == "";
    RedactTwo(lits, k);
    ReplaceOnly("", k, "", m);
    assert "" + k + "" == k && "" + m + "" == m;
    ReplaceWithoutMatch(m, w, Marker(other));
  }

  lemma LastChunk(k: string, name: string, w: string, other: string, v: string)
    requires w != "" && |w| <= |k| && |v| < |w|
    ensures var lits := Two(k, name, w, other);
            FeedOut(lits, "", v) + RedactAll(lits, FeedRest(lits, "", v)) == v
  {
    var lits := Two(k, name, w, other);
    if v == "" {
      RedactEmpty(lits);
    } else {
      var c := Boundary(lits, v);
      assert "" + v == v && v == v[..c] + v[c..];
      ShortStays(k, name, w, other, v[..c]);
      ShortStays(k, name, w, other, v[c..]);
    }
  }

  /** The rest of a stream, from what is pending. */
  ghost function StreamFrom(lits: seq<Literal>, pending: string, chunks: seq<string>): string
    requires Table(lits)
  {
    Released(lits, pending, chunks) + RedactAll(lits, Held(lits, pending, chunks))
  }

  lemma StreamMore(lits: seq<Literal>, pending: string, x: string, rest: seq<string>)
    requires Table(lits)
    ensures StreamFrom(lits, pending, [x] + rest)
         == FeedOut(lits, pending, x) + StreamFrom(lits, FeedRest(lits, pending, x), rest)
    ensures Concat([x] + rest) == x + Concat(rest)
  {
    assert ([x] + rest)[1..] == rest;
    var later := FeedRest(lits, pending, x);
    var out, more := FeedOut(lits, pending, x), Released(lits, later, rest);
    var tail := RedactAll(lits, Held(lits, later, rest));
    assert (out + more) + tail == out + (more + tail);
  }

  lemma ConcatThree(x: string, y: string, z: string)
    ensures Concat([x, y, z]) == x + y + z
  {
    assert [x, y, z][1..] == [y, z] && [y, z][1..] == [z] && [z][1..] == [];
    assert Concat([z]) == z + Concat([]) == z;
    assert Concat([y, z]) == y + z;
  }

  lemma Displays(x: string, y: string, z: string)
    ensures [x] + [y, z] == [x, y, z] && [y] + [z] == [y, z] && [z] + [] == [z]
  {}

  lemma CounterStream(k: string, name: string, w: string, other: string, p: string, v: string)
    requires w != "" && |w| <= |k| && Detached(k, w) && 2 <= |k|
    requires !Contains(Marker(name), w) && |p| < |w| && k[0] !in p && |v| < |w|
    ensures StreamOut(Two(k, name, w, other), [p + [k[0]], k[1..], v]) == p + Marker(name) + v
  {
    var lits, x, y := Two(k, name, w, other), p + [k[0]], k[1..];
    FirstChunk(k, name, w, other, p);
    SecondChunk(k, name, w, other);
    LastChunk(k, name, w, other, v);
    StreamMore(lits, "", x, [y, v]);
    StreamMore(lits, [k[0]], y, [v]);
    StreamMore(lits, "", v, []);
    Displays(x, y, v);
    var held := FeedRest(lits, "", v);
    assert StreamFrom(lits, held, []) == RedactAll(lits, held);
    assert StreamFrom(lits, "", [v]) == v;
    assert p + (Marker(name) + v) == p + Marker(name) + v;
  }

  /** Where `w` lies over the marker at `d`, what sticks out on the left and on the right. */
  function Left(w: string, d: int): string
    requires -|w| < d
  {
    if d < 0 then w[..-d] else ""
  }

  function Right(w: string, d: int, n: nat): string
    requires d < n
  {
    if n < d + |w| then w[n - d..] else ""
  }

  lemma LiesAcross(w: string, m: string, d: int)
    requires -|w| < d < |m| && Agrees(w, m, d)
    ensures Contains(Left(w, d) + m + Right(w, d, |m|), w)
  {
    var p, v := Left(w, d), Right(w, d, |m|);
    var i := if d < 0 then 0 else d;
    AgreesOnParts(w, p + m, v, i);
    AgreesOnParts(w, p, m, i);
    OccursIffAgrees(p + m + v, w, i);
    assert OccursAt(p + m + v, w, i);
  }

  /** What the whole text becomes: `w` is found across the marker, so the marker does not stay. */
  lemma WholeChanges(k: string, name: string, w: string, other: string, p: string, v: string)
    requires w != "" && |w| <= |k| && Marker(other) != w && k[0] !in p && |v| < |k|
    requires Contains(p + Marker(name) + v, w)
    ensures RedactAll(Two(k, name, w, other), p + k + v) != p + Marker(name) + v
  {
    RedactTwo(Two(k, name, w, other), p + k + v);
    ReplaceOnly(p, k, v, Marker(name));
    ReplaceChanges(p + Marker(name) + v, w, Marker(other));
  }

  /** The stream releases the marker before the rest of `w` arrives; the whole text does not. */
  lemma TouchingBreaks(k: string, name: string, w: string, other: string, d: int)
    requires BracketFree(name) && |w| <= |k| && Detached(k, w) && Marker(other) != w
    requires var m := Marker(name); -|w| < d < |m| && !(0 <= d && d + |w| <= |m|) && Agrees(w, m, d)
    ensures w != "" && !ChunkLaw(Two(k, name, w, other), [Left(w, d) + [k[0]], k[1..], Right(w, d, |Marker(name)|)])
  {
    var m := Marker(name);
    var p, v := Left(w, d), Right(w, d, |m|);
    NotInsideToo(w, name, d);
    CounterStream(k, name, w, other, p, v);
    ConcatThree(p + [k[0]], k[1..], v);
    assert p + [k[0]] + k[1..] + v == p + k + v;
    LiesAcross(w, m, d);
    WholeChanges(k, name, w, other, p, v);
  }

  /** The chunk law of one table, for every text and chunking. */
  ghost predicate Lawful(lits: seq<Literal>)
    requires Table(lits)
  {
    forall chunks :: ChunkLaw(lits, chunks)
  }

  lemma Breaks(k: string, name: string, w: string, other: string)
    requires w != "" && |w| <= |k| && BracketFree(name) && Detached(k, w) && Marker(other) != w
    requires Touches(w, Marker(name))
    ensures !Lawful(Two(k, name, w, other))
  {
    var m := Marker(name);
    var d :| -|w| < d < |m| && !(0 <= d && d + |w| <= |m|) && Agrees(w, m, d);
    TouchingBreaks(k, name, w, other, d);
  }

  lemma Holds(k: string, name: string, w: string, other: string)
    requires w != "" && k != "" && !Touches(w, Marker(name))
    ensures Lawful(Two(k, name, w, other))
  {
    var lits := Two(k, name, w, other);
    assert SeamFree(lits);
    forall chunks ensures ChunkLaw(lits, chunks) {
      ChunkIndependence(lits, chunks);
    }
  }

  /** A table of two detached values is lawful if and only if the second one cannot match across
      the marker of the first. */
  lemma TwoValuesExactly(k: string, name: string, w: string, other: string)
    requires w != "" && |w| <= |k| && BracketFree(name) && Detached(k, w) && Marker(other) != w
    ensures Lawful(Two(k, name, w, other)) <==> !Touches(w, Marker(name))
  {
    if Touches(w, Marker(name)) {
      Breaks(k, name, w, other);
    } else {
      Holds(k, name, w, other);
    }
  }

  // ----- whatever the first value is --------------------------------------------------------------

  /** `a` once, then `b`. */
  function Closed(a: char, b: char, n: nat): string {
    [a] + seq(n, _ => b)
  }

  lemma ClosedIsDetached(a: char, b: char, w: string)
    requires a != b && a !in w && b !in w
    ensures Detached(Closed(a, b, |w| + 1), w)
  {
    var k := Closed(a, b, |w| + 1);
    forall j: nat | 0 < j ensures !OpenTail(k, w, j) {
      if j <= |k| && j < |w| {
        assert k[|k| - j..][j - 1] == b != w[..j][j - 1];
      }
    }
  }

  lemma OtherName(w: string) returns (other: string)
    ensures Marker(other) != w
  {
    other := if Marker("") == w then "x" else "";
    assert |Marker("x")| == |Marker("")| + 1;
  }

  /** A value may follow a value called `name`, whatever that value is and however texts are
      chunked, if and only if it cannot match across that value's marker. */
  lemma MayFollowExactly(w: string, name: string, a: char, b: char)
    requires w != "" && BracketFree(name) && a != b && a !in w && b !in w
    ensures MayFollow(w, name) <==> !Touches(w, Marker(name))
  {
    if Touches(w, Marker(name)) {
      var other := OtherName(w);
      ClosedIsDetached(a, b, w);
      Breaks(Closed(a, b, |w| + 1), name, w, other);
    } else {
      forall k: string, other: string | |w| <= |k| ensures Lawful(Two(k, name, w, other)) {
        Holds(k, name, w, other);
      }
    }
  }

  /** Two values for which the law fails. */
  lemma BracketValueExample()
    ensures var lits := [Literal("qsssss", Marker("a")), Literal("]xyz", Marker("b"))];
            Table(lits) && !ChunkLaw(lits, ["q", "sssss", "xyz"])
  {
    var w, k := "]xyz", "qsssss";
    assert Marker("a")[11] == ']';
    assert Agrees(w, Marker("a"), 11);
    assert Marker("b")[0] == '[';
    assert k == Closed('q', 's', 5);
    ClosedIsDetached('q', 's', w);
    TouchingBreaks(k, "a", w, "b", 11);
    assert k[1..] == "sssss" && Left(w, 11) + [k[0]] == "q" && Right(w, 11, 12) == "xyz";
  }
}
