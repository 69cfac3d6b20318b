/** Building the literal table from named secrets, and teaching it more later. `esc` stands for
    the form JSON gives a string (`json.dumps(value)[1:-1]`). */
module RedactorTable {
  import opened Options
  import opened TextReplace
  import opened Redaction
  import opened StableSort

  const MIN_REDACTABLE_LEN := 4

  datatype Secret = Secret(name: string, value: Option<string>)

  datatype Redactor = Redactor(
    literals: seq<Literal>, skipped: seq<string>, identities: set<string>, collisions: seq<string>)

  // ----- specification ------------------------------------------------------------------------

  predicate Redactable(s: Secret) {
    s.value.Some? && |s.value.value| >= MIN_REDACTABLE_LEN
  }

  function Variants(esc: string -> string, v: string): seq<string> {
    if esc(v) == v then [v] else [v, esc(v)]
  }

  function Marked(name: string, variants: seq<string>): seq<Literal> {
    if variants == [] then [] else [Literal(variants[0], Marker(name))] + Marked(name, variants[1..])
  }

  /** Every form of every secret that is redacted, in order, repetitions included. */
  function Entries(esc: string -> string, ids: set<string>, secrets: seq<Secret>): seq<Literal> {
    if secrets == [] then []
    else
      var s, rest := secrets[0], Entries(esc, ids, secrets[1..]);
      if Redactable(s) && s.value.value !in ids then Marked(s.name, Variants(esc, s.value.value)) + rest else rest
  }

  function Needles(lits: seq<Literal>): set<string> {
    set l | l in lits :: l.needle
  }

  /** The first entry of every needle that is not in `seen`. */
  function FirstOf(entries: seq<Literal>, seen: set<string>): seq<Literal> {
    if entries == [] then []
    else if entries[0].needle in seen then FirstOf(entries[1..], seen)
    else [entries[0]] + FirstOf(entries[1..], seen + {entries[0].needle})
  }

  /** The entries whose needle is not in `drop`. */
  function Without(lits: seq<Literal>, drop: set<string>): seq<Literal> {
    if lits == [] then []
    else if lits[0].needle in drop then Without(lits[1..], drop)
    else [lits[0]] + Without(lits[1..], drop)
  }

  function LiteralTable(esc: string -> string, ids: set<string>, secrets: seq<Secret>): seq<Literal> {
    LongestFirst(FirstOf(Entries(esc, ids, secrets), {}))
  }

  function SkippedNames(secrets: seq<Secret>): seq<string> {
    if secrets == [] then []
    else (if secrets[0].value.Some? && !Redactable(secrets[0]) then [secrets[0].name] else [])
         + SkippedNames(secrets[1..])
  }

  function CollidedNames(ids: set<string>, secrets: seq<Secret>): seq<string> {
    if secrets == [] then []
    else (if Redactable(secrets[0]) && secrets[0].value.value in ids then [secrets[0].name] else [])
         + CollidedNames(ids, secrets[1..])
  }

  /** `tuple(dict.fromkeys(names))`. */
  function Unique(names: seq<string>): seq<string> {
    if names == [] then []
    else var rest := Unique(names[..|names| - 1]);
         if names[|names| - 1] in rest then rest else rest + [names[|names| - 1]]
  }

  function Built(esc: string -> string, ids: set<string>, secrets: seq<Secret>): Redactor {
    Redactor(LiteralTable(esc, ids, secrets), SkippedNames(secrets), ids, Unique(CollidedNames(ids, secrets)))
  }

  function Extended(esc: string -> string, r: Redactor, secrets: seq<Secret>): Redactor {
    var added := Built(esc, r.identities, secrets);
    var unknown := Without(added.literals, Needles(r.literals));
    var skipped, collisions := Unique(r.skipped + added.skipped), Unique(r.collisions + added.collisions);
    if unknown == [] && skipped == r.skipped && collisions == r.collisions then r
    else r.(literals := LongestFirst(r.literals + unknown), skipped := skipped, collisions := collisions)
  }

  /** The secret's name inside a marker. */
  function NameIn(marker: string): string {
    if |marker| < 11 then "" else marker[10..|marker| - 1]
  }

  function CollidedMarkers(lits: seq<Literal>, ids: set<string>): seq<string> {
    if lits == [] then []
    else (if lits[0].needle in ids then [NameIn(lits[0].marker)] else []) + CollidedMarkers(lits[1..], ids)
  }

  function WithIdentities(r: Redactor, ids: set<string>): Redactor {
    var identity := r.identities + ids;
    var collided := CollidedMarkers(r.literals, identity);
    if identity == r.identities && collided == [] then r
    else r.(literals := Without(r.literals, identity), identities := identity,
            collisions := Unique(r.collisions + collided))
  }

  /** True when redacting would remove `v` from any text, or when it is never meant to. */
  predicate Covers(r: Redactor, v: string)
    requires Table(r.literals)
  {
    |v| < MIN_REDACTABLE_LEN || v in r.identities || RedactAll(r.literals, v) != v
  }

  // ----- the builder --------------------------------------------------------------------------

  method Build(esc: string -> string, ids: set<string>, secrets: seq<Secret>) returns (r: Redactor)
    ensures r == Built(esc, ids, secrets)
  {
    var literals: seq<Literal>, skipped: seq<string>, collisions: seq<string>, seen: set<string> := [], [], [], {};
    for i := 0 to |secrets|
      invariant literals == FirstOf(Entries(esc, ids, secrets[..i]), {})
      invariant seen == Needles(Entries(esc, ids, secrets[..i]))
      invariant skipped == SkippedNames(secrets[..i])
      invariant collisions == CollidedNames(ids, secrets[..i])
    {
      var s := secrets[i];
      ghost var before := Entries(esc, ids, secrets[..i]);
      SnocSecret(esc, ids, secrets[..i], s);
      assert before + [] == before;
      assert secrets[..i + 1] == secrets[..i] + [s];
      if s.value.None? {
        continue;
      }
      var value := s.value.value;
      if |value| < MIN_REDACTABLE_LEN {
        skipped := skipped + [s.name];
        continue;
      }
      if value in ids {
        collisions := collisions + [s.name];
        continue;
      }
      literals, seen := AddVariants(s.name, Variants(esc, value), literals, seen, before);
    }
    assert secrets[..|secrets|] == secrets;
    return Redactor(LongestFirst(literals), skipped, ids, Unique(collisions));
  }

  /** One more form of a secret. */
  lemma VariantNext(name: string, variants: seq<string>, j: nat, before: seq<Literal>)
    requires j < |variants|
    ensures var done, more := before + Marked(name, variants[..j]), before + Marked(name, variants[..j + 1]);
            && Needles(more) == Needles(done) + {variants[j]}
            && FirstOf(more, {})
               == FirstOf(done, {}) + if variants[j] in Needles(done) then [] else [Literal(variants[j], Marker(name))]
  {
    var done, entry := before + Marked(name, variants[..j]), Literal(variants[j], Marker(name));
    assert variants[..j + 1] == variants[..j] + [variants[j]];
    MarkedSnoc(name, variants[..j], variants[j]);
    assert before + Marked(name, variants[..j + 1]) == done + [entry];
    FirstOfSnoc(done, entry);
  }

  method AddVariants(name: string, variants: seq<string>, literals: seq<Literal>, seen: set<string>,
                     ghost before: seq<Literal>)
    returns (literals': seq<Literal>, seen': set<string>)
    requires literals == FirstOf(before, {}) && seen == Needles(before)
    ensures literals' == FirstOf(before + Marked(name, variants), {})
    ensures seen' == Needles(before + Marked(name, variants))
  {
    literals', seen' := literals, seen;
    assert variants[..0] == [] && before + [] == before;
    for j := 0 to |variants|
      invariant literals' == FirstOf(before + Marked(name, variants[..j]), {})
      invariant seen' == Needles(before + Marked(name, variants[..j]))
    {
      var entry := Literal(variants[j], Marker(name));
      VariantNext(name, variants, j, before);
      if variants[j] !in seen' {
        seen' := seen' + {variants[j]};
        literals' := literals' + [entry];
      }
    }
    assert variants[..|variants|] == variants;
  }

  /** The names of the values that redaction would let through, in order, repetitions included. */
  function LetThrough(r: Redactor, secrets: seq<Secret>): seq<string>
    requires Table(r.literals)
  {
    if secrets == [] then []
    else
      var rest, last := LetThrough(r, secrets[..|secrets| - 1]), secrets[|secrets| - 1];
      if last.value.Some? && !Covers(r, last.value.value) then rest + [last.name] else rest
  }

  /** `uncovered`: each such name once, in order of first appearance. */
  method Uncovered(r: Redactor, secrets: seq<Secret>) returns (names: seq<string>)
    requires Table(r.literals)
    ensures names == Unique(LetThrough(r, secrets))
    ensures names == [] <==> forall s | s in secrets && s.value.Some? :: Covers(r, s.value.value)
    ensures forall n :: n in names <==>
      exists s | s in secrets && s.value.Some? && !Covers(r, s.value.value) :: s.name == n
  {
    var missing: seq<string> := [];
    for i := 0 to |secrets|
      invariant missing == LetThrough(r, secrets[..i])
    {
      var s := secrets[i];
      assert secrets[..i + 1][..i] == secrets[..i];
      if s.value.Some? && !Covers(r, s.value.value) {
        missing := missing + [s.name];
      }
    }
    assert secrets[..|secrets|] == secrets;
    names := Unique(missing);
    LetThroughHas(r, secrets);
    UniqueHas(missing);
    assert names != [] ==> names[0] in names;
    assert forall s | s in secrets && s.value.Some? && !Covers(r, s.value.value) :: s.name in names;
  }

  lemma {:induction false} LetThroughHas(r: Redactor, secrets: seq<Secret>)
    requires Table(r.literals)
    ensures forall n :: n in LetThrough(r, secrets) <==>
      exists s | s in secrets && s.value.Some? && !Covers(r, s.value.value) :: s.name == n
    decreases |secrets|
  {
    if secrets != [] {
      var init, last := secrets[..|secrets| - 1], secrets[|secrets| - 1];
      LetThroughHas(r, init);
      assert secrets == init + [last];
      assert forall s :: s in secrets <==> s in init || s == last;
    }
  }

  /** No name is listed twice, and each is listed where it first appears. */
  lemma {:induction false} UniqueKeepsOrder(names: seq<string>)
    ensures forall i, j | 0 <= i < j < |Unique(names)| :: Unique(names)[i] != Unique(names)[j]
    ensures forall k | 0 <= k <= |names| :: Unique(names[..k]) <= Unique(names)
    decreases |names|
  {
    assert names[..|names|] == names;
    if names != [] {
      var init := names[..|names| - 1];
      UniqueKeepsOrder(init);
      forall k | 0 <= k < |names| ensures Unique(names[..k]) <= Unique(names) {
        assert names[..k] == init[..k];
      }
    }
  }

  lemma {:induction false} UniqueHas(names: seq<string>)
    ensures forall n :: n in Unique(names) <==> n in names
    decreases |names|
  {
    if names != [] {
      UniqueHas(names[..|names| - 1]);
      assert names == names[..|names| - 1] + [names[|names| - 1]];
    }
  }

  // ----- small facts --------------------------------------------------------------------------

  lemma NeedlesConcat(a: seq<Literal>, b: seq<Literal>)
    ensures Needles(a + b) == Needles(a) + Needles(b)
  {
    assert forall l :: l in a + b <==> l in a || l in b;
  }

  lemma {:induction false} MarkedSnoc(name: string, vs: seq<string>, v: string)
    ensures Marked(name, vs + [v]) == Marked(name, vs) + [Literal(v, Marker(name))]
    decreases |vs|
  {
    if vs == [] {
      assert vs + [v] == [v] && [v][1..] == [];
    } else {
      assert (vs + [v])[1..] == vs[1..] + [v];
      MarkedSnoc(name, vs[1..], v);
    }
  }

  lemma MarkedVariants(esc: string -> string, name: string, v: string)
    ensures Marked(name, Variants(esc, v))
         == if esc(v) == v then [Literal(v, Marker(name))]
            else [Literal(v, Marker(name)), Literal(esc(v), Marker(name))]
  {
    MarkedSnoc(name, [], v);
    MarkedSnoc(name, [v], esc(v));
    assert [] + [v] == [v] && [v] + [esc(v)] == [v, esc(v)];
  }

  lemma {:induction false} EntriesConcat(esc: string -> string, ids: set<string>, a: seq<Secret>, b: seq<Secret>)
    ensures Entries(esc, ids, a + b) == Entries(esc, ids, a) + Entries(esc, ids, b)
    decreases |a|
  {
    if a == [] {
      assert a + b == b;
    } else {
      assert (a + b)[1..] == a[1..] + b;
      EntriesConcat(esc, ids, a[1..], b);
    }
  }

  lemma SnocSecret(esc: string -> string, ids: set<string>, a: seq<Secret>, s: Secret)
    ensures Entries(esc, ids, a + [s]) == Entries(esc, ids, a)
      + if Redactable(s) && s.value.value !in ids then Marked(s.name, Variants(esc, s.value.value)) else []
    ensures SkippedNames(a + [s]) == SkippedNames(a) + if s.value.Some? && !Redactable(s) then [s.name] else []
    ensures CollidedNames(ids, a + [s]) == CollidedNames(ids, a)
      + if Redactable(s) && s.value.value in ids then [s.name] else []
  {
    EntriesConcat(esc, ids, a, [s]);
    SnocSkipped(a, s);
    SnocCollided(ids, a, s);
    assert [s][1..] == [];
  }

  lemma {:induction false} SnocSkipped(a: seq<Secret>, s: Secret)
    ensures SkippedNames(a + [s]) == SkippedNames(a) + if s.value.Some? && !Redactable(s) then [s.name] else []
    decreases |a|
  {
    if a == [] {
      assert a + [s] == [s] && [s][1..] == [];
    } else {
      assert (a + [s])[1..] == a[1..] + [s];
      SnocSkipped(a[1..], s);
    }
  }

  lemma {:induction false} SnocCollided(ids: set<string>, a: seq<Secret>, s: Secret)
    ensures CollidedNames(ids, a + [s]) == CollidedNames(ids, a)
      + if Redactable(s) && s.value.value in ids then [s.name] else []
    decreases |a|
  {
    if a == [] {
      assert a + [s] == [s] && [s][1..] == [];
    } else {
      assert (a + [s])[1..] == a[1..] + [s];
      SnocCollided(ids, a[1..], s);
    }
  }

  lemma {:induction false} FirstOfConcat(a: seq<Literal>, b: seq<Literal>, seen: set<string>)
    ensures FirstOf(a + b, seen) == FirstOf(a, seen) + FirstOf(b, seen + Needles(a))
    decreases |a|
  {
    if a == [] {
      assert a + b == b && seen + Needles(a) == seen;
    } else {
      assert (a + b)[1..] == a[1..] + b;
      var seen' := seen + {a[0].needle};
      HeadNeedle(a, seen);
      if a[0].needle in seen {
        assert seen' == seen;
        FirstOfConcat(a[1..], b, seen);
      } else {
        FirstOfConcat(a[1..], b, seen');
        assert [a[0]] + (FirstOf(a[1..], seen') + FirstOf(b, seen' + Needles(a[1..])))
            == ([a[0]] + FirstOf(a[1..], seen')) + FirstOf(b, seen' + Needles(a[1..]));
      }
    }
  }

  lemma HeadNeedle(a: seq<Literal>, seen: set<string>)
    requires a != []
    ensures seen + Needles(a) == seen + {a[0].needle} + Needles(a[1..])
  {
    assert a == [a[0]] + a[1..];
    NeedlesConcat([a[0]], a[1..]);
  }

  lemma FirstOfSnoc(a: seq<Literal>, l: Literal)
    ensures FirstOf(a + [l], {}) == FirstOf(a, {}) + if l.needle in Needles(a) then [] else [l]
    ensures FirstOf(a, {}) + [] == FirstOf(a, {})
    ensures Needles(a + [l]) == Needles(a) + {l.needle}
  {
    FirstOfConcat(a, [l], {});
    NeedlesConcat(a, [l]);
    assert {} + Needles(a) == Needles(a) && [l][1..] == [];
  }

  lemma {:induction false} FirstOfNeedles(a: seq<Literal>, seen: set<string>)
    ensures Needles(FirstOf(a, seen)) == Needles(a) - seen
    decreases |a|
  {
    if a != [] {
      assert a == [a[0]] + a[1..];
      NeedlesConcat([a[0]], a[1..]);
      var rest := if a[0].needle in seen then seen else seen + {a[0].needle};
      FirstOfNeedles(a[1..], rest);
      NeedlesConcat([a[0]], FirstOf(a[1..], rest));
    }
  }

  lemma {:induction false} WithoutConcat(a: seq<Literal>, b: seq<Literal>, drop: set<string>)
    ensures Without(a + b, drop) == Without(a, drop) + Without(b, drop)
    decreases |a|
  {
    if a == [] {
      assert a + b == b;
    } else {
      assert (a + b)[1..] == a[1..] + b;
      WithoutConcat(a[1..], b, drop);
    }
  }

  /** What was already known can be dropped before or after choosing the first of each. */
  lemma {:induction false} FirstOfWithout(a: seq<Literal>, seen: set<string>, known: set<string>)
    ensures FirstOf(a, seen + known) == Without(FirstOf(a, seen), known)
    decreases |a|
  {
    if a != [] {
      var n := a[0].needle;
      if n in seen {
        FirstOfWithout(a[1..], seen, known);
      } else {
        FirstOfWithout(a[1..], seen + {n}, known);
        assert seen + {n} + known == (seen + known) + {n};
        assert n in known ==> (seen + known) + {n} == seen + known;
        assert ([a[0]] + FirstOf(a[1..], seen + {n}))[1..] == FirstOf(a[1..], seen + {n});
      }
    }
  }

  lemma {:induction false} OfLengthWithout(k: nat, s: seq<Literal>, drop: set<string>)
    ensures OfLength(k, Without(s, drop)) == Without(OfLength(k, s), drop)
    decreases |s|
  {
    if s != [] {
      OfLengthWithout(k, s[1..], drop);
      var keep := if s[0].needle in drop then [] else [s[0]];
      OfLengthConcat(k, keep, Without(s[1..], drop));
      var here := if |s[0].needle| == k then [s[0]] else [];
      WithoutConcat(here, OfLength(k, s[1..]), drop);
      assert [s[0]][1..] == [];
    }
  }

  lemma {:induction false} WithoutHas(s: seq<Literal>, drop: set<string>, l: Literal)
    ensures l in Without(s, drop) <==> l in s && l.needle !in drop
    decreases |s|
  {
    if s != [] {
      WithoutHas(s[1..], drop, l);
    }
  }

  lemma {:induction false} WithoutOrdered(s: seq<Literal>, drop: set<string>)
    requires Ordered(s)
    ensures Ordered(Without(s, drop))
    decreases |s|
  {
    if s != [] {
      WithoutOrdered(s[1..], drop);
      var rest := Without(s[1..], drop);
      forall j | 0 <= j < |rest| ensures |rest[j].needle| <= |s[0].needle| {
        WithoutHas(s[1..], drop, rest[j]);
      }
    }
  }

  /** Dropping needles and sorting commute. */
  lemma WithoutSorted(s: seq<Literal>, drop: set<string>)
    ensures Without(LongestFirst(s), drop) == LongestFirst(Without(s, drop))
  {
    LongestFirstIsStable(s);
    LongestFirstIsStable(Without(s, drop));
    WithoutOrdered(LongestFirst(s), drop);
    forall k: nat ensures OfLength(k, Without(LongestFirst(s), drop)) == OfLength(k, LongestFirst(Without(s, drop))) {
      OfLengthWithout(k, LongestFirst(s), drop);
      OfLengthWithout(k, s, drop);
    }
    OrderedIsUnique(Without(LongestFirst(s), drop), LongestFirst(Without(s, drop)));
  }

  lemma SortedHas(s: seq<Literal>)
    ensures forall l :: l in LongestFirst(s) <==> l in s
    ensures Needles(LongestFirst(s)) == Needles(s)
  {
    LongestFirstIsStable(s);
    forall l ensures l in LongestFirst(s) <==> l in s {
      assert l in multiset(LongestFirst(s)) <==> l in multiset(s);
    }
  }

  // ----- the algebra --------------------------------------------------------------------------

  /** Sorting twice, or sorting one part first, changes nothing. */
  lemma SortOfSorted(a: seq<Literal>, b: seq<Literal>)
    ensures LongestFirst(LongestFirst(a) + LongestFirst(b)) == LongestFirst(a + b)
  {
    var x, y := LongestFirst(LongestFirst(a) + LongestFirst(b)), LongestFirst(a + b);
    LongestFirstIsStable(a);
    LongestFirstIsStable(b);
    LongestFirstIsStable(LongestFirst(a) + LongestFirst(b));
    LongestFirstIsStable(a + b);
    forall k: nat ensures OfLength(k, x) == OfLength(k, y) {
      OfLengthConcat(k, LongestFirst(a), LongestFirst(b));
      OfLengthConcat(k, a, b);
    }
    OrderedIsUnique(x, y);
  }

  /** Learning secrets later gives the same ordered table as knowing them from the start. */
  lemma ExtendIsBuild(esc: string -> string, ids: set<string>, a: seq<Secret>, b: seq<Secret>)
    ensures Extended(esc, Built(esc, ids, a), b).literals == Built(esc, ids, a + b).literals
  {
    var ea, eb := Entries(esc, ids, a), Entries(esc, ids, b);
    var fa := FirstOf(ea, {});
    var known := Needles(Built(esc, ids, a).literals);
    var unknown := Without(LiteralTable(esc, ids, b), known);
    SortedHas(fa);
    FirstOfNeedles(ea, {});
    assert known == Needles(ea);
    EntriesConcat(esc, ids, a, b);
    FirstOfConcat(ea, eb, {});
    FirstOfWithout(eb, {}, known);
    assert {} + known == known && {} + Needles(ea) == known;
    WithoutSorted(FirstOf(eb, {}), known);
    SortOfSorted(fa, Without(FirstOf(eb, {}), known));
    if unknown == [] {
      SortOfSorted(fa, []);
      assert fa + [] == fa && LongestFirst(fa) + [] == LongestFirst(fa);
      assert LongestFirst(LongestFirst(fa) + LongestFirst([])) == LongestFirst(fa);
    }
  }

  /** Values that JSON does not escape differently from an identity. */
  predicate EscapeAgrees(esc: string -> string, base: set<string>, ids: set<string>, secrets: seq<Secret>) {
    forall s | s in secrets && Redactable(s) && s.value.value !in base ::
      s.value.value in ids <==> esc(s.value.value) in ids
  }

  lemma {:induction false} EntriesWithout(esc: string -> string, base: set<string>, ids: set<string>,
                                          secrets: seq<Secret>)
    requires base <= ids && EscapeAgrees(esc, base, ids, secrets)
    ensures Without(Entries(esc, base, secrets), ids) == Entries(esc, ids, secrets)
    decreases |secrets|
  {
    if secrets != [] {
      EntriesWithout(esc, base, ids, secrets[1..]);
      var s := secrets[0];
      if Redactable(s) && s.value.value !in base {
        var v, m := s.value.value, Marker(s.name);
        var here := Marked(s.name, Variants(esc, v));
        MarkedVariants(esc, s.name, v);
        WithoutConcat(here, Entries(esc, base, secrets[1..]), ids);
        assert s in secrets;
        assert Without(here, ids) == if v in ids then [] else here;
      }
    }
  }

  /** Teaching identities later gives the same literal table as building with them, when every
      value that becomes an identity does so together with its escaped form. */
  lemma IdentitiesLater(esc: string -> string, base: set<string>, ids: set<string>, secrets: seq<Secret>)
    requires EscapeAgrees(esc, base, base + ids, secrets)
    ensures WithIdentities(Built(esc, base, secrets), ids).literals == Built(esc, base + ids, secrets).literals
  {
    var entries := Entries(esc, base, secrets);
    EntriesWithout(esc, base, base + ids, secrets);
    WithoutSorted(FirstOf(entries, {}), base + ids);
    FirstOfDropped(entries, {}, base + ids);
    NoCollision(LiteralTable(esc, base, secrets), base + ids);
  }

  lemma {:induction false} FirstOfDropped(a: seq<Literal>, seen: set<string>, drop: set<string>)
    ensures Without(FirstOf(a, seen), drop) == FirstOf(Without(a, drop), seen)
    decreases |a|
  {
    if a != [] {
      var n := a[0].needle;
      var rest := Without(a[1..], drop);
      FirstOfDropped(a[1..], seen, drop);
      FirstOfDropped(a[1..], seen + {n}, drop);
      if n in drop {
        WithoutNeedles(a[1..], drop);
        FirstOfIgnores(rest, seen, n);
      } else {
        assert ([a[0]] + rest)[1..] == rest;
      }
      if n !in seen {
        assert ([a[0]] + FirstOf(a[1..], seen + {n}))[1..] == FirstOf(a[1..], seen + {n});
      }
    }
  }

  lemma WithoutNeedles(a: seq<Literal>, drop: set<string>)
    ensures Needles(Without(a, drop)) !! drop
  {
    forall l | l in Without(a, drop) ensures l.needle !in drop {
      WithoutHas(a, drop, l);
    }
  }

  lemma {:induction false} FirstOfIgnores(a: seq<Literal>, seen: set<string>, n: string)
    ensures n !in Needles(a) ==> FirstOf(a, seen + {n}) == FirstOf(a, seen)
    decreases |a|
  {
    if a != [] && n !in Needles(a) {
      assert a == [a[0]] + a[1..];
      NeedlesConcat([a[0]], a[1..]);
      assert a[0].needle in Needles([a[0]]);
      FirstOfIgnores(a[1..], seen, n);
      FirstOfIgnores(a[1..], seen + {a[0].needle}, n);
      assert seen + {n} + {a[0].needle} == seen + {a[0].needle} + {n};
    }
  }

  lemma {:induction false} NoCollision(lits: seq<Literal>, ids: set<string>)
    ensures CollidedMarkers(lits, ids) == [] ==> Without(lits, ids) == lits
    decreases |lits|
  {
    if lits != [] {
      NoCollision(lits[1..], ids);
    }
  }

  // ----- exactly when identities may be taught later -------------------------------------------

  /** Of a value that is an identity only the escaped form may be left, and only where an earlier
      value, kept with its own escaped form, has the same one (`seen`). */
  predicate Shadowed(esc: string -> string, base: set<string>, ids: set<string>, secrets: seq<Secret>,
                     seen: set<string>) {
    if secrets == [] then true
    else
      var s, rest := secrets[0], secrets[1..];
      if !Redactable(s) || s.value.value in base then Shadowed(esc, base, ids, rest, seen)
      else
        var v := s.value.value;
        if v !in ids then esc(v) !in ids && Shadowed(esc, base, ids, rest, seen + {v, esc(v)})
        else (esc(v) in ids || esc(v) in seen) && Shadowed(esc, base, ids, rest, seen)
  }

  /** What the first secret adds to the table before and after the identities are known. */
  lemma HeadEntries(esc: string -> string, base: set<string>, ids: set<string>, secrets: seq<Secret>)
    requires secrets != [] && base <= ids && Redactable(secrets[0]) && secrets[0].value.value !in base
    ensures var v, m := secrets[0].value.value, Marker(secrets[0].name);
            var here := Marked(secrets[0].name, Variants(esc, v));
            && Needles(here) == {v, esc(v)}
            && Without(Entries(esc, base, secrets), ids)
               == Without(here, ids) + Without(Entries(esc, base, secrets[1..]), ids)
            && Entries(esc, ids, secrets)
               == (if v in ids then [] else here) + Entries(esc, ids, secrets[1..])
            && (v !in ids && esc(v) !in ids ==> Without(here, ids) == here)
            && (v in ids && esc(v) in ids ==> Without(here, ids) == [])
            && (v in ids && esc(v) !in ids ==> Without(here, ids) == [Literal(esc(v), m)])
  {
    var v, m := secrets[0].value.value, Marker(secrets[0].name);
    var here := Marked(secrets[0].name, Variants(esc, v));
    MarkedVariants(esc, secrets[0].name, v);
    WithoutConcat(here, Entries(esc, base, secrets[1..]), ids);
    assert [Literal(v, m)][1..] == [] && [Literal(v, m), Literal(esc(v), m)][1..] == [Literal(esc(v), m)];
    assert here[0] in here && here[|here| - 1] in here;
  }

  lemma {:induction false} ShadowedAgrees(esc: string -> string, base: set<string>, ids: set<string>,
                                          secrets: seq<Secret>, seen: set<string>)
    requires base <= ids && Shadowed(esc, base, ids, secrets, seen)
    ensures FirstOf(Without(Entries(esc, base, secrets), ids), seen) == FirstOf(Entries(esc, ids, secrets), seen)
    decreases |secrets|
  {
    if secrets != [] {
      var s, rest := secrets[0], secrets[1..];
      if !Redactable(s) || s.value.value in base {
        ShadowedAgrees(esc, base, ids, rest, seen);
      } else {
        var v, here := s.value.value, Marked(s.name, Variants(esc, s.value.value));
        HeadEntries(esc, base, ids, secrets);
        if v !in ids {
          ShadowedAgrees(esc, base, ids, rest, seen + {v, esc(v)});
          FirstOfConcat(here, Without(Entries(esc, base, rest), ids), seen);
          FirstOfConcat(here, Entries(esc, ids, rest), seen);
        } else {
          ShadowedAgrees(esc, base, ids, rest, seen);
          SeenIsSkipped(Without(here, ids), Without(Entries(esc, base, rest), ids), seen);
          assert [] + Entries(esc, ids, rest) == Entries(esc, ids, rest);
        }
      }
    }
  }

  lemma SeenIsSkipped(a: seq<Literal>, b: seq<Literal>, seen: set<string>)
    requires |a| <= 1 && Needles(a) <= seen
    ensures FirstOf(a + b, seen) == FirstOf(b, seen)
  {
    if a == [] {
      assert a + b == b;
    } else {
      assert a[0] in a && (a + b)[1..] == b;
    }
  }

  /** A literal that only one of the two tables has. */
  ghost predicate OnlyOne(esc: string -> string, base: set<string>, ids: set<string>, secrets: seq<Secret>,
                          seen: set<string>, l: Literal) {
    || (l in FirstOf(Entries(esc, ids, secrets), seen) && l.needle in ids)
    || (l in FirstOf(Without(Entries(esc, base, secrets), ids), seen)
        && exists s | s in secrets && Redactable(s) && s.value.value in ids :: l.marker == Marker(s.name))
  }

  lemma {:induction false} Unshadowed(esc: string -> string, base: set<string>, ids: set<string>,
                                      secrets: seq<Secret>, seen: set<string>) returns (l: Literal)
    requires base <= ids && seen !! ids && !Shadowed(esc, base, ids, secrets, seen)
    ensures OnlyOne(esc, base, ids, secrets, seen, l)
    decreases |secrets|
  {
    var s, rest := secrets[0], secrets[1..];
    assert forall x | x in rest :: x in secrets;
    if !Redactable(s) || s.value.value in base {
      l := Unshadowed(esc, base, ids, rest, seen);
    } else {
      var v, here := s.value.value, Marked(s.name, Variants(esc, s.value.value));
      var later, now := Without(Entries(esc, base, rest), ids), Entries(esc, ids, rest);
      HeadEntries(esc, base, ids, secrets);
      if v !in ids {
        FirstOfConcat(here, now, seen);
        if esc(v) in ids {
          FirstOfNeedles(here, seen);
          assert esc(v) in Needles(FirstOf(here, seen));
          l :| l in FirstOf(here, seen) && l.needle == esc(v);
        } else {
          l := Unshadowed(esc, base, ids, rest, seen + {v, esc(v)});
          FirstOfConcat(here, later, seen);
        }
      } else {
        assert [] + now == now;
        if esc(v) in ids || esc(v) in seen {
          l := Unshadowed(esc, base, ids, rest, seen);
          SeenIsSkipped(Without(here, ids), later, seen);
        } else {
          l := Literal(esc(v), Marker(s.name));
          assert ([l] + later)[0] == l;
        }
      }
    }
  }

  lemma {:induction false} EntryFrom(esc: string -> string, ids: set<string>, secrets: seq<Secret>, l: Literal)
    requires l in Entries(esc, ids, secrets)
    ensures exists t | t in secrets && Redactable(t) && t.value.value !in ids :: l.marker == Marker(t.name)
    decreases |secrets|
  {
    var s := secrets[0];
    if l in Entries(esc, ids, secrets[1..]) {
      EntryFrom(esc, ids, secrets[1..], l);
    } else {
      MarkedVariants(esc, s.name, s.value.value);
      assert l.marker == Marker(s.name) && s in secrets;
    }
  }

  lemma MarkerNames(a: string, b: string)
    requires Marker(a) == Marker(b)
    ensures a == b
  {
    assert Marker(a)[10..|Marker(a)| - 1] == a && Marker(b)[10..|Marker(b)| - 1] == b;
  }

  predicate NamesTellApart(secrets: seq<Secret>) {
    forall s, t | s in secrets && t in secrets && s.name == t.name :: s == t
  }

  lemma OnlyOneDiffers(esc: string -> string, base: set<string>, ids: set<string>, secrets: seq<Secret>, l: Literal)
    requires NamesTellApart(secrets) && OnlyOne(esc, base, ids, secrets, {}, l)
    ensures l in FirstOf(Entries(esc, ids, secrets), {}) <==>
            l !in FirstOf(Without(Entries(esc, base, secrets), ids), {})
  {
    var later, now := Without(Entries(esc, base, secrets), ids), Entries(esc, ids, secrets);
    FirstOfKeeps(later, {});
    FirstOfKeeps(now, {});
    WithoutNeedles(Entries(esc, base, secrets), ids);
    assert l in later ==> l.needle in Needles(later);
    if l in now && exists s | s in secrets && Redactable(s) && s.value.value in ids :: l.marker == Marker(s.name) {
      EntryFrom(esc, ids, secrets, l);
      var s :| s in secrets && Redactable(s) && s.value.value in ids && l.marker == Marker(s.name);
      var t :| t in secrets && Redactable(t) && t.value.value !in ids && l.marker == Marker(t.name);
      MarkerNames(s.name, t.name);
      assert false;
    }
  }

  /** For secrets told apart by their names: teaching identities later gives the literal table of
      building with them if and only if every escaped form left over is shadowed. */
  lemma IdentitiesLaterExactly(esc: string -> string, base: set<string>, ids: set<string>, secrets: seq<Secret>)
    requires NamesTellApart(secrets)
    ensures WithIdentities(Built(esc, base, secrets), ids).literals == Built(esc, base + ids, secrets).literals
            <==> Shadowed(esc, base, base + ids, secrets, {})
  {
    var all, entries := base + ids, Entries(esc, base, secrets);
    var later, now := FirstOf(Without(entries, all), {}), FirstOf(Entries(esc, all, secrets), {});
    WithoutSorted(FirstOf(entries, {}), all);
    FirstOfDropped(entries, {}, all);
    NoCollision(LiteralTable(esc, base, secrets), all);
    assert WithIdentities(Built(esc, base, secrets), ids).literals == LongestFirst(later);
    if Shadowed(esc, base, all, secrets, {}) {
      ShadowedAgrees(esc, base, all, secrets, {});
    } else {
      var l := Unshadowed(esc, base, all, secrets, {});
      OnlyOneDiffers(esc, base, all, secrets, l);
      SortedHas(later);
      SortedHas(now);
    }
  }

  /** For one value the condition is exact: an identity whose escaped form is not one leaves
      that form in the table. */
  lemma IdentityLaterExactly(esc: string -> string, ids: set<string>, name: string, v: string)
    requires |v| >= MIN_REDACTABLE_LEN
    ensures var secrets := [Secret(name, Some(v))];
            WithIdentities(Built(esc, {}, secrets), ids).literals == Built(esc, ids, secrets).literals
            <==> (v in ids <==> esc(v) in ids)
  {
    var secrets, rest: seq<Secret> := [Secret(name, Some(v))], [];
    assert {} + ids == ids && secrets[1..] == rest;
    IdentitiesLaterExactly(esc, {}, ids, secrets);
    assert Shadowed(esc, {}, ids, rest, {}) && Shadowed(esc, {}, ids, rest, {v, esc(v)});
  }

  // ----- read-back ----------------------------------------------------------------------------

  lemma {:induction false} BracketStays(t: string, n: string, m: string)
    requires n != "" && '[' in m && ('[' in t || Contains(t, n))
    ensures '[' in Replace(t, n, m)
    decreases |t|
  {
    if t != "" && !(n <= t) {
      if Contains(t, n) {
        var i :| OccursAt(t, n, i);
        assert i != 0;
        OccursInTail(t, n, 1, i - 1);
      }
      if t[0] != '[' {
        BracketStays(t[1..], n, m);
      }
    }
  }

  lemma {:induction false} KnownValueIsMarked(lits: seq<Literal>, t: string, v: string)
    requires Table(lits) && forall l | l in lits :: '[' in l.marker
    requires '[' in t || (t == v && v in Needles(lits))
    ensures '[' in RedactAll(lits, t)
    decreases |lits|
  {
    if lits != [] {
      var n, m := lits[0].needle, lits[0].marker;
      assert n == t ==> OccursAt(t, n, 0);
      if '[' in t || Contains(t, n) {
        BracketStays(t, n, m);
      } else {
        ReplaceWithoutMatch(t, n, m);
      }
      KnownValueIsMarked(lits[1..], Replace(t, n, m), v);
    }
  }

  lemma {:induction false} EntriesAreMarked(esc: string -> string, ids: set<string>, secrets: seq<Secret>)
    requires forall v :: v != "" ==> esc(v) != ""
    ensures forall l | l in Entries(esc, ids, secrets) :: l.needle != "" && '[' in l.marker
    ensures forall s | s in secrets && Redactable(s) && s.value.value !in ids ::
      s.value.value in Needles(Entries(esc, ids, secrets))
    decreases |secrets|
  {
    if secrets != [] {
      EntriesAreMarked(esc, ids, secrets[1..]);
      var s := secrets[0];
      if Redactable(s) && s.value.value !in ids {
        var v, m := s.value.value, Marker(s.name);
        var here := Marked(s.name, Variants(esc, v));
        assert m[0] == '[';
        MarkedVariants(esc, s.name, v);
        NeedlesConcat(here, Entries(esc, ids, secrets[1..]));
        assert here[0] in here && v in Needles(here);
      }
    }
  }

  /** After learning `b`, every value of `b` without an opening bracket is covered. */
  lemma ExtendedCovers(esc: string -> string, ids: set<string>, a: seq<Secret>, b: seq<Secret>)
    requires forall v :: v != "" ==> esc(v) != ""
    ensures var r := Extended(esc, Built(esc, ids, a), b);
            Table(r.literals) && r.identities == ids
            && forall s | s in b && s.value.Some? && '[' !in s.value.value :: Covers(r, s.value.value)
  {
    var r := Extended(esc, Built(esc, ids, a), b);
    ExtendIsBuild(esc, ids, a, b);
    var entries := Entries(esc, ids, a + b);
    EntriesAreMarked(esc, ids, a + b);
    FirstOfNeedles(entries, {});
    FirstOfKeeps(entries, {});
    SortedHas(FirstOf(entries, {}));
    forall s | s in b && Redactable(s) && '[' !in s.value.value && s.value.value !in ids
      ensures RedactAll(r.literals, s.value.value) != s.value.value
    {
      assert s in a + b;
      KnownValueIsMarked(r.literals, s.value.value, s.value.value);
    }
  }

  lemma {:induction false} FirstOfKeeps(a: seq<Literal>, seen: set<string>)
    ensures forall l | l in FirstOf(a, seen) :: l in a
    decreases |a|
  {
    if a != [] {
      FirstOfKeeps(a[1..], seen);
      FirstOfKeeps(a[1..], seen + {a[0].needle});
    }
  }

  // ----- exactly what stays uncovered -----------------------------------------------------------

  predicate DistinctNeedles(lits: seq<Literal>) {
    forall i, j | 0 <= i < j < |lits| :: lits[i].needle != lits[j].needle
  }

  lemma {:induction false} FirstOfDistinct(a: seq<Literal>, seen: set<string>)
    ensures DistinctNeedles(FirstOf(a, seen))
    decreases |a|
  {
    if a != [] {
      FirstOfDistinct(a[1..], seen);
      var rest := FirstOf(a[1..], seen + {a[0].needle});
      FirstOfDistinct(a[1..], seen + {a[0].needle});
      FirstOfNeedles(a[1..], seen + {a[0].needle});
      assert forall j | 0 <= j < |rest| :: rest[j] in rest && rest[j].needle in Needles(rest);
    }
  }

  lemma {:induction false} InsertDistinct(l: Literal, s: seq<Literal>)
    requires DistinctNeedles(s) && l.needle !in Needles(s)
    ensures DistinctNeedles(Insert(l, s)) && Needles(Insert(l, s)) == Needles(s) + {l.needle}
    decreases |s|
  {
    if s == [] || |s[0].needle| <= |l.needle| {
      assert Insert(l, s) == [l] + s;
      NeedlesConcat([l], s);
      assert forall j | 0 <= j < |s| :: s[j] in s && s[j].needle in Needles(s);
    } else {
      assert s == [s[0]] + s[1..];
      NeedlesConcat([s[0]], s[1..]);
      InsertDistinct(l, s[1..]);
      var rest := Insert(l, s[1..]);
      NeedlesConcat([s[0]], rest);
      assert forall j | 0 <= j < |rest| :: rest[j] in rest && rest[j].needle in Needles(rest);
    }
  }

  lemma {:induction false} SortDistinct(s: seq<Literal>)
    requires DistinctNeedles(s)
    ensures DistinctNeedles(LongestFirst(s)) && Needles(LongestFirst(s)) == Needles(s)
    decreases |s|
  {
    if s != [] {
      SortDistinct(s[1..]);
      assert forall j | 0 <= j < |s[1..]| :: s[1..][j] == s[j + 1];
      assert s[0].needle !in Needles(s[1..]);
      InsertDistinct(s[0], LongestFirst(s[1..]));
      assert s == [s[0]] + s[1..];
      NeedlesConcat([s[0]], s[1..]);
    }
  }

  /** What every table that is built or extended looks like. */
  ghost predicate Sorted(lits: seq<Literal>) {
    Table(lits) && Ordered(lits) && DistinctNeedles(lits)
  }

  lemma BuiltIsSorted(esc: string -> string, ids: set<string>, secrets: seq<Secret>)
    requires forall v :: v != "" ==> esc(v) != ""
    ensures Sorted(LiteralTable(esc, ids, secrets))
    ensures forall s | s in secrets && Redactable(s) && s.value.value !in ids ::
      s.value.value in Needles(LiteralTable(esc, ids, secrets))
  {
    var entries := Entries(esc, ids, secrets);
    EntriesAreMarked(esc, ids, secrets);
    FirstOfDistinct(entries, {});
    FirstOfNeedles(entries, {});
    FirstOfKeeps(entries, {});
    SortDistinct(FirstOf(entries, {}));
    SortedHas(FirstOf(entries, {}));
    LongestFirstIsStable(FirstOf(entries, {}));
  }

  /** Longer values and others of its length leave a value alone; then its marker takes its place,
      and only the later values can still change that. */
  lemma {:induction false} ValueBecomes(lits: seq<Literal>, i: nat)
    requires Sorted(lits) && i < |lits|
    ensures RedactAll(lits, lits[i].needle) == RedactAll(lits[i + 1..], lits[i].marker)
    decreases |lits|
  {
    var v, n, m := lits[i].needle, lits[0].needle, lits[0].marker;
    if i == 0 {
      assert v[|v|..] == "" && Replace(v, v, m) == m + "" == m;
    } else {
      forall k ensures !OccursAt(v, n, k) {
        assert |v| <= |n| && (k == 0 && |n| == |v| ==> v[0..|n|] == v);
      }
      ReplaceWithoutMatch(v, n, m);
      ValueBecomes(lits[1..], i - 1);
      assert lits[1..][i..] == lits[i + 1..];
    }
  }

  /** The marker of the `i`-th value is turned back into the value by the later ones. */
  predicate Survives(lits: seq<Literal>, i: nat)
    requires Table(lits) && i < |lits|
  {
    RedactAll(lits[i + 1..], lits[i].marker) == lits[i].needle
  }

  /** After learning `b`, a value of `a` or `b` is uncovered if and only if the values after it turn
      its marker back into it; when none of them occurs in the marker, if and only if it spells
      its own marker. */
  lemma UncoveredExactly(esc: string -> string, ids: set<string>, a: seq<Secret>, b: seq<Secret>, s: Secret)
    returns (i: nat)
    requires forall v :: v != "" ==> esc(v) != ""
    requires s in a + b && Redactable(s) && s.value.value !in ids
    ensures var r := Extended(esc, Built(esc, ids, a), b);
            && Sorted(r.literals) && i < |r.literals| && r.literals[i].needle == s.value.value
            && (!Covers(r, s.value.value) <==> Survives(r.literals, i))
            && ((forall l | l in r.literals[i + 1..] :: !Contains(r.literals[i].marker, l.needle)) ==>
                  (!Covers(r, s.value.value) <==> s.value.value == r.literals[i].marker))
  {
    var r, v := Extended(esc, Built(esc, ids, a), b), s.value.value;
    ExtendIsBuild(esc, ids, a, b);
    BuiltIsSorted(esc, ids, a + b);
    i :| 0 <= i < |r.literals| && r.literals[i].needle == v;
    ValueBecomes(r.literals, i);
    if forall l | l in r.literals[i + 1..] :: !Contains(r.literals[i].marker, l.needle) {
      RedactWithoutMatch(r.literals[i + 1..], r.literals[i].marker);
    }
  }

  /** A value that redaction with this table lets through. */
  predicate Stays(lits: seq<Literal>, ids: set<string>, v: string)
    requires Table(lits)
  {
    |v| >= MIN_REDACTABLE_LEN && v !in ids && exists i | 0 <= i < |lits| && lits[i].needle == v :: Survives(lits, i)
  }

  lemma StaysExactly(esc: string -> string, ids: set<string>, a: seq<Secret>, b: seq<Secret>, s: Secret)
    requires forall v :: v != "" ==> esc(v) != ""
    requires s in a + b && s.value.Some?
    ensures var r := Extended(esc, Built(esc, ids, a), b);
            Table(r.literals) && (!Covers(r, s.value.value) <==> Stays(r.literals, ids, s.value.value))
  {
    ExtendIsBuild(esc, ids, a, b);
    BuiltIsSorted(esc, ids, a + b);
    if Redactable(s) && s.value.value !in ids {
      var i := UncoveredExactly(esc, ids, a, b, s);
    }
  }

  /** So after extending by `b`, `uncovered(b)` is empty if and only if no value of `b` stays. */
  lemma NothingUncoveredExactly(esc: string -> string, ids: set<string>, a: seq<Secret>, b: seq<Secret>)
    requires forall v :: v != "" ==> esc(v) != ""
    ensures var r := Extended(esc, Built(esc, ids, a), b);
            && Table(r.literals)
            && (Unique(LetThrough(r, b)) == [] <==>
                  forall s | s in b && s.value.Some? :: !Stays(r.literals, ids, s.value.value))
  {
    var r := Extended(esc, Built(esc, ids, a), b);
    ExtendIsBuild(esc, ids, a, b);
    BuiltIsSorted(esc, ids, a + b);
    forall s | s in b && s.value.Some? ensures !Covers(r, s.value.value) <==> Stays(r.literals, ids, s.value.value) {
      StaysExactly(esc, ids, a, b, s);
    }
    EmptyExactly(r, b);
  }

  lemma EmptyExactly(r: Redactor, b: seq<Secret>)
    requires Table(r.literals)
    ensures Unique(LetThrough(r, b)) == [] <==> forall s | s in b && s.value.Some? :: Covers(r, s.value.value)
  {
    LetThroughHas(r, b);
    UniqueHas(LetThrough(r, b));
    var names := Unique(LetThrough(r, b));
    assert names != [] ==> names[0] in names;
    assert forall s | s in b && s.value.Some? && !Covers(r, s.value.value) :: s.name in names;
  }

  // Two failing inputs, for values that JSON does not escape.

  function Unescaped(v: string): string {
    v
  }

  /** A secret whose value spells its own marker. */
  lemma MarkerIsUncovered(name: string)
    ensures var b := [Secret(name, Some(Marker(name)))];
            var r := Extended(Unescaped, Built(Unescaped, {}, []), b);
            Table(r.literals) && Unique(LetThrough(r, b)) != []
  {
    var m := Marker(name);
    var s := Secret(name, Some(m));
    var r := Extended(Unescaped, Built(Unescaped, {}, []), [s]);
    assert [] + [s] == [s];
    OneEntry(name, m);
    ExtendIsBuild(Unescaped, {}, [], [s]);
    assert r.literals == [Literal(m, m)] && r.literals[1..] == [];
    assert Survives(r.literals, 0) && r.literals[0].needle == m;
    StaysExactly(Unescaped, {}, [], [s], s);
    EmptyExactly(r, [s]);
  }

  /** A secret whose value spells a marker inside a marker: the marker that replaces it is turned
      back into it by a later value. */
  lemma NestedMarkerIsUncovered()
    ensures var b := [Secret("abcd", Some("[REDACTED:[REDACTED:x]]")), Secret("x", Some("abcd"))];
            var r := Extended(Unescaped, Built(Unescaped, {}, []), b);
            && Table(r.literals) && Unique(LetThrough(r, b)) != []
            && "[REDACTED:[REDACTED:x]]" != Marker("abcd")
  {
    var v, m := "[REDACTED:[REDACTED:x]]", Marker("abcd");
    var s, t := Secret("abcd", Some(v)), Secret("x", Some("abcd"));
    var r := Extended(Unescaped, Built(Unescaped, {}, []), [s, t]);
    assert [] + [s, t] == [s, t] && [s] + [t] == [s, t];
    TwoEntries("abcd", v, "x", "abcd");
    ExtendIsBuild(Unescaped, {}, [], [s, t]);
    MarkerTurnsBack();
    assert r.literals[1..] == [Literal("abcd", Marker("x"))];
    assert Survives(r.literals, 0) && r.literals[0].needle == v;
    StaysExactly(Unescaped, {}, [], [s, t], s);
    EmptyExactly(r, [s, t]);
    assert |v| != |m|;
  }

  lemma MarkerTurnsBack()
    ensures RedactAll([Literal("abcd", Marker("x"))], Marker("abcd")) == "[REDACTED:[REDACTED:x]]"
  {
    var open, n, m := "[REDACTED:", "abcd", Marker("x");
    assert Marker(n) == open + n + "]" && open + m + "]" == "[REDACTED:[REDACTED:x]]";
    ReplaceOnly(open, n, "]", m);
    assert [Literal(n, m)][1..] == [];
    assert RedactAll([Literal(n, m)], Marker(n)) == RedactAll([], Replace(Marker(n), n, m));
  }

  lemma OneEntry(name: string, v: string)
    requires |v| >= MIN_REDACTABLE_LEN
    ensures Entries(Unescaped, {}, [Secret(name, Some(v))]) == [Literal(v, Marker(name))]
    ensures Built(Unescaped, {}, [Secret(name, Some(v))]).literals == [Literal(v, Marker(name))]
  {
    var secrets, entry := [Secret(name, Some(v))], Literal(v, Marker(name));
    MarkedVariants(Unescaped, name, v);
    assert secrets[1..] == [] && [entry] + [] == [entry] && [entry][1..] == [];
    assert FirstOf([entry], {}) == [entry] + FirstOf([], {entry.needle}) == [entry];
    assert LongestFirst([entry]) == Insert(entry, LongestFirst([])) == [entry];
  }

  lemma TwoEntries(name: string, v: string, name': string, v': string)
    requires |v| > |v'| >= MIN_REDACTABLE_LEN
    ensures Built(Unescaped, {}, [Secret(name, Some(v)), Secret(name', Some(v'))]).literals
         == [Literal(v, Marker(name)), Literal(v', Marker(name'))]
  {
    var s, t := Secret(name, Some(v)), Secret(name', Some(v'));
    var x, y := Literal(v, Marker(name)), Literal(v', Marker(name'));
    OneEntry(name, v);
    OneEntry(name', v');
    EntriesConcat(Unescaped, {}, [s], [t]);
    assert [s] + [t] == [s, t] && [x] + [y] == [x, y];
    FirstOfSnoc([x], y);
    assert x in [x] && Needles([x]) == {v};
    assert [x][1..] == [] && FirstOf([x], {}) == [x] + FirstOf([], {v}) == [x];
    assert [x, y][1..] == [y] && [y][1..] == [];
    assert LongestFirst([y]) == Insert(y, []) == [y];
    assert LongestFirst([x, y]) == Insert(x, [y]) == [x] + [y];
  }
}
