/** What the literal table, the skipped names and the collisions are, told from the secrets alone. */
module RedactorContents {
  import opened Options
  import opened TextReplace
  import opened Redaction
  import opened StableSort
  import opened RedactorTable
  import opened RedactorCollisions

  /** A form in which the secret is to be found: its value or what JSON makes of it, unless it is shorter
      than four characters or an address of the run. */
  predicate IsForm(esc: string -> string, ids: set<string>, s: Secret, n: string) {
    && s.value.Some? && |s.value.value| >= 4 && s.value.value !in ids
    && (n == s.value.value || n == esc(s.value.value))
  }

  /** The first secret of the list with this form. */
  predicate FirstForm(esc: string -> string, ids: set<string>, secrets: seq<Secret>, i: nat, n: string) {
    i < |secrets| && IsForm(esc, ids, secrets[i], n) && forall j | 0 <= j < i :: !IsForm(esc, ids, secrets[j], n)
  }

  ghost predicate Owned(esc: string -> string, ids: set<string>, secrets: seq<Secret>, l: Literal) {
    exists i: nat :: FirstForm(esc, ids, secrets, i, l.needle) && l.marker == "[REDACTED:" + secrets[i].name + "]"
  }

  lemma FirstFormTail(esc: string -> string, ids: set<string>, secrets: seq<Secret>, i: nat, n: string)
    requires secrets != []
    ensures FirstForm(esc, ids, secrets, i + 1, n)
            <==> FirstForm(esc, ids, secrets[1..], i, n) && !IsForm(esc, ids, secrets[0], n)
  {
    if i < |secrets| - 1 {
      assert secrets[1..][i] == secrets[i + 1];
      if FirstForm(esc, ids, secrets[1..], i, n) && !IsForm(esc, ids, secrets[0], n) {
        forall j | 0 <= j < i + 1 ensures !IsForm(esc, ids, secrets[j], n) {
          assert j > 0 ==> secrets[1..][j - 1] == secrets[j];
        }
      }
      if FirstForm(esc, ids, secrets, i + 1, n) {
        forall j | 0 <= j < i ensures !IsForm(esc, ids, secrets[1..][j], n) {
          assert secrets[1..][j] == secrets[j + 1];
        }
      }
    }
  }

  lemma OwnedTail(esc: string -> string, ids: set<string>, secrets: seq<Secret>, l: Literal)
    requires secrets != []
    ensures Owned(esc, ids, secrets, l) <==>
            if IsForm(esc, ids, secrets[0], l.needle) then l.marker == "[REDACTED:" + secrets[0].name + "]"
            else Owned(esc, ids, secrets[1..], l)
  {
    if IsForm(esc, ids, secrets[0], l.needle) {
      assert FirstForm(esc, ids, secrets, 0, l.needle);
    } else {
      if i: nat :| FirstForm(esc, ids, secrets, i, l.needle) && l.marker == "[REDACTED:" + secrets[i].name + "]" {
        FirstFormTail(esc, ids, secrets, i - 1, l.needle);
        assert secrets[1..][i - 1] == secrets[i];
      }
      if i: nat :| FirstForm(esc, ids, secrets[1..], i, l.needle)
                   && l.marker == "[REDACTED:" + secrets[1..][i].name + "]" {
        FirstFormTail(esc, ids, secrets, i, l.needle);
        assert secrets[1..][i] == secrets[i + 1];
      }
    }
  }

  /** What one secret adds. */
  lemma HeadHas(esc: string -> string, name: string, v: string, seen: set<string>, l: Literal)
    ensures l in FirstOf(Marked(name, Variants(esc, v)), seen)
            <==> l.needle in {v, esc(v)} && l.needle !in seen && l.marker == Marker(name)
  {
    var a, b := Literal(v, Marker(name)), Literal(esc(v), Marker(name));
    MarkedVariants(esc, name, v);
    var here := Marked(name, Variants(esc, v));
    FirstOfKeeps(here, seen);
    FirstOfNeedles(here, seen);
    assert a in here && b in here;
    assert forall x | x in here :: x == a || x == b;
    assert l in FirstOf(here, seen) ==> l.needle in Needles(FirstOf(here, seen));
    if l.needle in {v, esc(v)} && l.needle !in seen && l.marker == Marker(name) {
      assert l.needle in Needles(here);
      assert l.needle in Needles(FirstOf(here, seen));
      var x :| x in FirstOf(here, seen) && x.needle == l.needle;
      assert x == l;
    }
  }

  lemma {:induction false} EntryExactly(esc: string -> string, ids: set<string>, secrets: seq<Secret>,
                                        seen: set<string>, l: Literal)
    ensures l in FirstOf(Entries(esc, ids, secrets), seen) <==> l.needle !in seen && Owned(esc, ids, secrets, l)
    decreases |secrets|
  {
    if secrets != [] {
      var s, rest := secrets[0], secrets[1..];
      OwnedTail(esc, ids, secrets, l);
      if Redactable(s) && s.value.value !in ids {
        var v := s.value.value;
        HeadHas(esc, s.name, v, seen, l);
        EntryExactly(esc, ids, rest, seen + {v, esc(v)}, l);
        HeadEntries(esc, ids, ids, secrets);
        FirstOfConcat(Marked(s.name, Variants(esc, v)), Entries(esc, ids, rest), seen);
      } else {
        EntryExactly(esc, ids, rest, seen, l);
      }
    }
  }

  /** A built table has exactly the forms of the secrets, each once, under the name of the first secret of
      the list that has it, longer ones first. */
  lemma TableExactly(esc: string -> string, ids: set<string>, secrets: seq<Secret>, l: Literal)
    ensures l in Built(esc, ids, secrets).literals <==> Owned(esc, ids, secrets, l)
    ensures DistinctNeedles(Built(esc, ids, secrets).literals)
  {
    var found := FirstOf(Entries(esc, ids, secrets), {});
    EntryExactly(esc, ids, secrets, {}, l);
    SortedHas(found);
    FirstOfDistinct(Entries(esc, ids, secrets), {});
    SortDistinct(found);
  }

  lemma {:induction false} SkippedExactly(secrets: seq<Secret>, n: string)
    ensures n in SkippedNames(secrets) <==>
            exists s | s in secrets :: s.value.Some? && |s.value.value| < 4 && s.name == n
    decreases |secrets|
  {
    if secrets != [] {
      SkippedExactly(secrets[1..], n);
      assert forall s :: s in secrets <==> s == secrets[0] || s in secrets[1..];
    }
  }

  lemma CollidesExactly(esc: string -> string, ids: set<string>, secrets: seq<Secret>, n: string)
    ensures n in Built(esc, ids, secrets).collisions <==>
            exists s | s in secrets :: s.value.Some? && |s.value.value| >= 4 && s.value.value in ids && s.name == n
  {
    CollisionsAtOnce(esc, ids, secrets);
    assert n in Built(esc, ids, secrets).collisions <==> n in Colliding(ids, secrets);
  }

  /** Learning more skips and reports what building with both lists does, and keeps the addresses. */
  lemma ExtendNames(esc: string -> string, ids: set<string>, a: seq<Secret>, b: seq<Secret>, n: string)
    ensures var r, all := Extended(esc, Built(esc, ids, a), b), Built(esc, ids, a + b);
            && r.identities == ids
            && (n in r.skipped <==> n in all.skipped) && (n in r.collisions <==> n in all.collisions)
  {
    var before, added := Built(esc, ids, a), Built(esc, ids, b);
    UniqueHas(before.skipped + added.skipped);
    UniqueHas(before.collisions + added.collisions);
    SkippedExactly(a, n);
    SkippedExactly(b, n);
    SkippedExactly(a + b, n);
    CollidesExactly(esc, ids, a, n);
    CollidesExactly(esc, ids, b, n);
    CollidesExactly(esc, ids, a + b, n);
    assert forall s :: s in a + b <==> s in a || s in b;
  }
}
