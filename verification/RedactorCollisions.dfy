/** Which secrets are reported as addresses of the run: the names `build` lists against the names
    listed when the addresses are taught later. */
module RedactorCollisions {
  import opened Options
  import opened TextReplace
  import opened Redaction
  import opened StableSort
  import opened RedactorTable

  /** The names of the secrets whose value is an identity. */
  function Colliding(ids: set<string>, secrets: seq<Secret>): set<string> {
    set s | s in secrets && Redactable(s) && s.value.value in ids :: s.name
  }

  /** The names of the secrets that are the first of the list to have some identity as a form. */
  function Owners(esc: string -> string, base: set<string>, ids: set<string>, secrets: seq<Secret>,
                  seen: set<string>): set<string> {
    if secrets == [] then {}
    else
      var s, rest := secrets[0], secrets[1..];
      if !Redactable(s) || s.value.value in base then Owners(esc, base, ids, rest, seen)
      else
        var forms := {s.value.value, esc(s.value.value)};
        (if (forms - seen) * ids != {} then {s.name} else {}) + Owners(esc, base, ids, rest, seen + forms)
  }

  /** A secret's value is an identity exactly when the secret is the first to have one as a form. */
  predicate FirstOwns(esc: string -> string, base: set<string>, ids: set<string>, secrets: seq<Secret>) {
    forall s | s in secrets && Redactable(s) && s.value.value !in base ::
      s.value.value in ids <==> s.name in Owners(esc, base, ids, secrets, {})
  }

  lemma {:induction false} CollidedAre(ids: set<string>, secrets: seq<Secret>)
    ensures SetOf(CollidedNames(ids, secrets)) == Colliding(ids, secrets)
    decreases |secrets|
  {
    if secrets != [] {
      var rest := CollidedNames(ids, secrets[1..]);
      CollidedAre(ids, secrets[1..]);
      var here := if Redactable(secrets[0]) && secrets[0].value.value in ids then [secrets[0].name] else [];
      SetOfConcat(here, rest);
      assert forall s :: s in secrets <==> s == secrets[0] || s in secrets[1..];
    }
  }

  function SetOf(names: seq<string>): set<string> {
    set n | n in names
  }

  lemma SetOfConcat(a: seq<string>, b: seq<string>)
    ensures SetOf(a + b) == SetOf(a) + SetOf(b)
  {}

  lemma UniqueSet(names: seq<string>)
    ensures SetOf(Unique(names)) == SetOf(names)
  {
    UniqueHas(names);
  }

  /** The names in the markers of the literals that are identities. */
  function Named(lits: seq<Literal>, ids: set<string>): set<string> {
    set l | l in lits && l.needle in ids :: NameIn(l.marker)
  }

  lemma {:induction false} CollidedMarkersAre(lits: seq<Literal>, ids: set<string>)
    ensures SetOf(CollidedMarkers(lits, ids)) == Named(lits, ids)
    decreases |lits|
  {
    if lits != [] {
      CollidedMarkersAre(lits[1..], ids);
      var here := if lits[0].needle in ids then [NameIn(lits[0].marker)] else [];
      SetOfConcat(here, CollidedMarkers(lits[1..], ids));
      assert forall l :: l in lits <==> l == lits[0] || l in lits[1..];
    }
  }

  lemma NamedConcat(a: seq<Literal>, b: seq<Literal>, ids: set<string>)
    ensures Named(a + b, ids) == Named(a, ids) + Named(b, ids)
  {
    assert forall l :: l in a + b <==> l in a || l in b;
  }

  lemma NameInMarker(name: string)
    ensures NameIn(Marker(name)) == name
  {}

  /** What one secret adds to the table names it exactly when one of its new forms is an identity. */
  lemma HeadNamed(esc: string -> string, name: string, v: string, ids: set<string>, seen: set<string>)
    ensures var here := Marked(name, Variants(esc, v));
            && Needles(here) == {v, esc(v)}
            && Named(FirstOf(here, seen), ids) == if ({v, esc(v)} - seen) * ids != {} then {name} else {}
  {
    var here := Marked(name, Variants(esc, v));
    MarkedVariants(esc, name, v);
    assert here[0] in here && here[|here| - 1] in here;
    assert Needles(here) == {v, esc(v)};
    var new' := FirstOf(here, seen);
    FirstOfKeeps(here, seen);
    FirstOfNeedles(here, seen);
    NameInMarker(name);
    forall l | l in new' ensures NameIn(l.marker) == name {
      assert l in here;
    }
    var hits := ({v, esc(v)} - seen) * ids;
    if hits != {} {
      var n :| n in hits;
      assert n in Needles(new');
      var l :| l in new' && l.needle == n;
      assert NameIn(l.marker) in Named(new', ids);
    } else {
      forall l | l in new' ensures l.needle !in ids {
        assert l.needle in Needles(new');
        assert l.needle in ids ==> l.needle in hits;
      }
    }
  }

  lemma {:induction false} OwnersAre(esc: string -> string, base: set<string>, ids: set<string>,
                                     secrets: seq<Secret>, seen: set<string>)
    ensures Named(FirstOf(Entries(esc, base, secrets), seen), ids) == Owners(esc, base, ids, secrets, seen)
    decreases |secrets|
  {
    if secrets != [] {
      var s, rest := secrets[0], secrets[1..];
      if !Redactable(s) || s.value.value in base {
        OwnersAre(esc, base, ids, rest, seen);
      } else {
        var v := s.value.value;
        var here, more := Marked(s.name, Variants(esc, v)), Entries(esc, base, rest);
        HeadNamed(esc, s.name, v, ids, seen);
        OwnersAre(esc, base, ids, rest, seen + {v, esc(v)});
        FirstOfConcat(here, more, seen);
        NamedConcat(FirstOf(here, seen), FirstOf(more, seen + {v, esc(v)}), ids);
      }
    }
  }

  /** The names listed when identities are taught later: those of the build, and the first secret of
      each form that became an identity. */
  lemma CollisionsLater(esc: string -> string, base: set<string>, ids: set<string>, secrets: seq<Secret>)
    ensures SetOf(WithIdentities(Built(esc, base, secrets), ids).collisions)
            == Colliding(base, secrets) + Owners(esc, base, base + ids, secrets, {})
  {
    var r, all := Built(esc, base, secrets), base + ids;
    var collided := CollidedMarkers(r.literals, all);
    CollidedAre(base, secrets);
    UniqueSet(CollidedNames(base, secrets));
    CollidedMarkersAre(r.literals, all);
    SortedHas(FirstOf(Entries(esc, base, secrets), {}));
    assert Named(r.literals, all) == Named(FirstOf(Entries(esc, base, secrets), {}), all);
    OwnersAre(esc, base, all, secrets, {});
    UniqueSet(r.collisions + collided);
    SetOfConcat(r.collisions, collided);
  }

  /** Whatever else changes, the addresses taught are known from then on, also when no value is one of them,
      and nothing is skipped or forgotten. */
  lemma IdentitiesTaught(r: Redactor, ids: set<string>)
    ensures WithIdentities(r, ids).identities == r.identities + ids
    ensures WithIdentities(r, ids).skipped == r.skipped
    ensures forall l :: l in WithIdentities(r, ids).literals <==> l in r.literals && l.needle !in r.identities + ids
    ensures forall n | n in r.collisions :: n in WithIdentities(r, ids).collisions
  {
    var identity := r.identities + ids;
    NoCollision(r.literals, identity);
    UniqueHas(r.collisions + CollidedMarkers(r.literals, identity));
    forall l ensures l in Without(r.literals, identity) <==> l in r.literals && l.needle !in identity {
      WithoutHas(r.literals, identity, l);
    }
  }

  lemma CollisionsAtOnce(esc: string -> string, ids: set<string>, secrets: seq<Secret>)
    ensures SetOf(Built(esc, ids, secrets).collisions) == Colliding(ids, secrets)
  {
    CollidedAre(ids, secrets);
    UniqueSet(CollidedNames(ids, secrets));
  }

  lemma {:induction false} OwnersAreLive(esc: string -> string, base: set<string>, ids: set<string>,
                                         secrets: seq<Secret>, seen: set<string>, n: string)
    requires n in Owners(esc, base, ids, secrets, seen)
    ensures exists s | s in secrets :: Redactable(s) && s.value.value !in base && s.name == n
    decreases |secrets|
  {
    var s, rest := secrets[0], secrets[1..];
    if !Redactable(s) || s.value.value in base {
      OwnersAreLive(esc, base, ids, rest, seen, n);
    } else {
      var forms := {s.value.value, esc(s.value.value)};
      if n in Owners(esc, base, ids, rest, seen + forms) {
        OwnersAreLive(esc, base, ids, rest, seen + forms, n);
      } else {
        assert s in secrets && s.name == n;
      }
    }
  }

  /** For secrets told apart by their names: teaching identities later names the same secrets as
      building with them if and only if the secrets whose value becomes an identity are those that are
      the first of the list to have one as a form. */
  lemma CollisionsLaterExactly(esc: string -> string, base: set<string>, ids: set<string>, secrets: seq<Secret>)
    requires NamesTellApart(secrets)
    ensures SetOf(WithIdentities(Built(esc, base, secrets), ids).collisions)
            == SetOf(Built(esc, base + ids, secrets).collisions)
            <==> FirstOwns(esc, base, base + ids, secrets)
  {
    var all := base + ids;
    var first, now := Owners(esc, base, all, secrets, {}), Colliding(all, secrets);
    CollisionsLater(esc, base, ids, secrets);
    CollisionsAtOnce(esc, all, secrets);
    forall s | s in secrets && Redactable(s) && s.value.value !in base
      ensures s.name !in Colliding(base, secrets) && (s.name in now <==> s.value.value in all)
    {}
    if FirstOwns(esc, base, all, secrets) {
      forall n | n in first ensures n in now {
        OwnersAreLive(esc, base, all, secrets, {}, n);
      }
      forall n | n in now ensures n in Colliding(base, secrets) + first {
        var s :| s in secrets && Redactable(s) && s.value.value in all && s.name == n;
      }
      assert Colliding(base, secrets) <= now;
    }
  }

  /** Two secrets of one value that becomes an identity: `build` lists both, `with_identities` the first. */
  lemma SharedValueExample()
    ensures var secrets := [Secret("a", Some("abcd")), Secret("b", Some("abcd"))];
            && "b" in Built(Unescaped, {"abcd"}, secrets).collisions
            && "b" !in WithIdentities(Built(Unescaped, {}, secrets), {"abcd"}).collisions
  {
    var s, t := Secret("a", Some("abcd")), Secret("b", Some("abcd"));
    SharedValue(s, t);
  }

  lemma SharedValue(s: Secret, t: Secret)
    requires s.name != t.name && Redactable(s) && t.value == s.value
    ensures t.name in Built(Unescaped, {s.value.value}, [s, t]).collisions
    ensures t.name !in WithIdentities(Built(Unescaped, {}, [s, t]), {s.value.value}).collisions
  {
    var v, secrets := s.value.value, [s, t];
    CollisionsAtOnce(Unescaped, {v}, secrets);
    assert t in secrets && t.name in Colliding({v}, secrets);
    assert t.name in SetOf(Built(Unescaped, {v}, secrets).collisions);
    CollisionsLater(Unescaped, {}, {v}, secrets);
    assert {} + {v} == {v} && Colliding({}, secrets) == {};
    FirstOwnsShared(s, t);
    assert t.name !in SetOf(WithIdentities(Built(Unescaped, {}, secrets), {v}).collisions);
  }

  lemma FirstOwnsShared(s: Secret, t: Secret)
    requires Redactable(s) && t.value == s.value
    ensures Owners(Unescaped, {}, {s.value.value}, [s, t], {}) == {s.name}
  {
    var v := s.value.value;
    assert [s, t][1..] == [t] && [t][1..] == [];
    assert {v, Unescaped(v)} == {v} && ({v} - {}) * {v} == {v} && {} + {v} == {v} && v in {v};
    NothingOwned(t, v);
  }

  lemma NothingOwned(t: Secret, v: string)
    requires t.value == Some(v)
    ensures Owners(Unescaped, {}, {v}, [t], {v}) == {}
  {
    var rest: seq<Secret> := [];
    assert [t][1..] == rest;
    assert {v, Unescaped(v)} == {v} && ({v} - {v}) * {v} == {};
    assert Owners(Unescaped, {}, {v}, rest, {v} + {v}) == {};
  }
}
