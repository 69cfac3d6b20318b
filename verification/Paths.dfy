/** The path of a step inside a run: `build[2]/fix_all[0]/patch`. */
module Paths {
  import opened Options
  import Decimal
  import Lexicographic

  const MAX_IDENT_LEN := 128

  const RESERVED_ROOTS :=
    ["inputs", "steps", "run", "project", "env", "iteration", "each", "loop", "self", "true", "false", "none", "null"]

  datatype Segment = Segment(name: string, index: Option<nat>)

  type Path = seq<Segment>

  predicate IsWordChar(c: char) {
    'a' <= c <= 'z' || '0' <= c <= '9' || c == '_'
  }

  predicate IsWord(s: string) {
    s != "" && 'a' <= s[0] <= 'z' && forall i | 0 <= i < |s| :: IsWordChar(s[i])
  }

  predicate IsIdentifier(s: string) {
    IsWord(s) && |s| <= MAX_IDENT_LEN && s !in RESERVED_ROOTS
  }

  predicate Good(p: Path) {
    forall i | 0 <= i < |p| :: IsIdentifier(p[i].name)
  }

  // ----- construction ---------------------------------------------------------------------------

  datatype Op = Child(id: string) | Indexed(n: int)

  function Apply(p: Path, op: Op): Option<Path> {
    match op
    case Child(id) => if IsIdentifier(id) then Some(p + [Segment(id, None)]) else None
    case Indexed(n) =>
      if p == [] || n < 0 || p[|p| - 1].index.Some? then None
      else Some(p[..|p| - 1] + [Segment(p[|p| - 1].name, Some(n))])
  }

  /** The path that some calls of `child` and `indexed` build from the root, when none is refused. */
  function Build(ops: seq<Op>): Option<Path> {
    if ops == [] then Some([])
    else
      match Build(ops[..|ops| - 1])
      case None => None
      case Some(p) => Apply(p, ops[|ops| - 1])
  }

  lemma {:induction false} BuiltIsGood(ops: seq<Op>)
    ensures Build(ops).Some? ==> Good(Build(ops).value)
    decreases |ops|
  {
    if ops != [] {
      BuiltIsGood(ops[..|ops| - 1]);
    }
  }

  /** Every path of identifiers can be built. */
  lemma {:induction false} GoodIsBuilt(p: Path) returns (ops: seq<Op>)
    requires Good(p)
    ensures Build(ops) == Some(p)
    decreases |p|
  {
    if p == [] {
      ops := [];
    } else {
      var init, last := p[..|p| - 1], p[|p| - 1];
      var before := GoodIsBuilt(init);
      var named := before + [Child(last.name)];
      assert named[..|named| - 1] == before;
      assert p == init + [last];
      if last.index.None? {
        ops := named;
      } else {
        ops := named + [Indexed(last.index.value)];
        assert ops[..|ops| - 1] == named;
        var q := init + [Segment(last.name, None)];
        assert Build(named) == Some(q) && q[..|q| - 1] == init;
      }
    }
  }

  // ----- printing -------------------------------------------------------------------------------

  function PrintSegment(s: Segment): string {
    if s.index.None? then s.name else s.name + "[" + Decimal.Numeral(s.index.value) + "]"
  }

  function PrintAll(p: Path): seq<string> {
    seq(|p|, i requires 0 <= i < |p| => PrintSegment(p[i]))
  }

  function Join(parts: seq<string>): string {
    if parts == [] then "" else if |parts| == 1 then parts[0] else parts[0] + "/" + Join(parts[1..])
  }

  function Print(p: Path): string {
    Join(PrintAll(p))
  }

  // ----- parsing --------------------------------------------------------------------------------

  function Split(text: string): (parts: seq<string>)
    ensures parts != []
  {
    if text == "" then [""]
    else
      var rest := Split(text[1..]);
      if text[0] == '/' then [""] + rest else [[text[0]] + rest[0]] + rest[1..]
  }

  /** How far the text is made of word characters. */
  function WordEnd(s: string): (n: nat)
    ensures n <= |s| && (forall i | 0 <= i < n :: IsWordChar(s[i])) && (n < |s| ==> !IsWordChar(s[n]))
  {
    if s == "" || !IsWordChar(s[0]) then 0 else 1 + WordEnd(s[1..])
  }

  /** The `$` of the segment pattern also matches before one newline at the very end. */
  function Chopped(raw: string): string {
    if raw != "" && raw[|raw| - 1] == '\n' then raw[..|raw| - 1] else raw
  }

  /** `[n]` */
  predicate IsIndex(s: string) {
    |s| >= 3 && s[0] == '[' && s[|s| - 1] == ']' && Decimal.AllDigits(s[1..|s| - 1])
  }

  /** The segment pattern. */
  function MatchSegment(raw: string): Option<Segment> {
    var text := Chopped(raw);
    var n := WordEnd(text);
    var name, rest := text[..n], text[n..];
    if !IsWord(name) then None
    else if rest == "" then Some(Segment(name, None))
    else if IsIndex(rest) then Some(Segment(name, Some(Decimal.Value(rest[1..|rest| - 1]))))
    else None
  }

  function ParseSegment(raw: string): Option<Segment> {
    match MatchSegment(raw)
    case None => None
    case Some(s) => if IsIdentifier(s.name) then Some(s) else None
  }

  ghost predicate ParsesTo(text: string, p: Path) {
    if text == "" then p == []
    else
      |p| == |Split(text)| && forall i | 0 <= i < |p| :: ParseSegment(Split(text)[i]) == Some(p[i])
  }

  lemma BadSegment(text: string, k: nat)
    requires text != "" && k < |Split(text)| && ParseSegment(Split(text)[k]).None?
    ensures forall q :: !ParsesTo(text, q)
  {
    forall q ensures !ParsesTo(text, q) {
      if |q| == |Split(text)| {
        assert ParseSegment(Split(text)[k]) != Some(q[k]);
      }
    }
  }

  method Parse(text: string) returns (p: Option<Path>)
    ensures p.Some? ==> ParsesTo(text, p.value)
    ensures p.None? ==> forall q :: !ParsesTo(text, q)
  {
    if text == "" {
      return Some([]);
    }
    var segments := [];
    var raws := Split(text);
    for k := 0 to |raws|
      invariant |segments| == k
      invariant forall i | 0 <= i < k :: ParseSegment(raws[i]) == Some(segments[i])
    {
      var segment := ParseSegment(raws[k]);
      if segment.None? {
        BadSegment(text, k);
        return None;
      }
      segments := segments + [segment.value];
    }
    return Some(segments);
  }

  lemma ParsesToOne(text: string, p: Path, q: Path)
    requires ParsesTo(text, p) && ParsesTo(text, q)
    ensures p == q
  {
    if text != "" {
      forall i | 0 <= i < |p| ensures p[i] == q[i] {
        assert ParseSegment(Split(text)[i]) == Some(p[i]);
      }
    }
  }

  lemma ParsedIsGood(text: string, p: Path)
    requires ParsesTo(text, p)
    ensures Good(p)
  {
    if text != "" {
      forall i | 0 <= i < |p| ensures IsIdentifier(p[i].name) {
        assert ParseSegment(Split(text)[i]) == Some(p[i]);
      }
    }
  }

  // ----- splitting undoes joining ---------------------------------------------------------------

  predicate Slashless(s: string) {
    forall i | 0 <= i < |s| :: s[i] != '/'
  }

  lemma {:induction false} SplitOne(s: string)
    requires Slashless(s)
    ensures Split(s) == [s]
    decreases |s|
  {
    if s != "" {
      SplitOne(s[1..]);
      assert [s[0]] + s[1..] == s;
    }
  }

  lemma {:induction false} SplitFirst(s: string, rest: string)
    requires Slashless(s)
    ensures Split(s + "/" + rest) == [s] + Split(rest)
    decreases |s|
  {
    var text := s + "/" + rest;
    if s == "" {
      assert text[1..] == rest;
    } else {
      SplitFirst(s[1..], rest);
      assert text[1..] == s[1..] + "/" + rest;
      assert [s[0]] + s[1..] == s;
    }
  }

  lemma {:induction false} SplitJoin(parts: seq<string>)
    requires parts != [] && forall i | 0 <= i < |parts| :: Slashless(parts[i])
    ensures Split(Join(parts)) == parts
    decreases |parts|
  {
    if |parts| == 1 {
      SplitOne(parts[0]);
    } else {
      SplitJoin(parts[1..]);
      SplitFirst(parts[0], Join(parts[1..]));
      assert parts == [parts[0]] + parts[1..];
    }
  }

  lemma {:induction false} JoinSplit(text: string)
    ensures Join(Split(text)) == text && forall i | 0 <= i < |Split(text)| :: Slashless(Split(text)[i])
    decreases |text|
  {
    if text != "" {
      var rest := Split(text[1..]);
      JoinSplit(text[1..]);
      assert text == [text[0]] + text[1..];
      if text[0] == '/' {
        assert Split(text)[1..] == rest;
      } else {
        JoinGrows(text[0], rest);
      }
    }
  }

  lemma JoinGrows(c: char, parts: seq<string>)
    requires parts != []
    ensures Join([[c] + parts[0]] + parts[1..]) == [c] + Join(parts)
  {
    var grown := [[c] + parts[0]] + parts[1..];
    assert grown[1..] == parts[1..];
  }

  // ----- round trips ----------------------------------------------------------------------------

  lemma WordEndsHere(word: string, rest: string)
    requires forall i | 0 <= i < |word| :: IsWordChar(word[i])
    requires rest != "" ==> !IsWordChar(rest[0])
    ensures WordEnd(word + rest) == |word|
  {
    var text := word + rest;
    assert forall i | 0 <= i < |word| :: text[i] == word[i] && IsWordChar(text[i]);
    assert rest != "" ==> text[|word|] == rest[0];
  }

  lemma PlainRoundTrip(name: string)
    requires IsWord(name)
    ensures MatchSegment(name) == Some(Segment(name, None)) && Slashless(name)
  {
    assert name + "" == name;
    WordEndsHere(name, "");
    assert name[..|name|] == name;
    assert forall i | 0 <= i < |name| :: IsWordChar(name[i]);
  }

  lemma MatchesIndexed(name: string, rest: string)
    requires IsWord(name) && IsIndex(rest)
    ensures MatchSegment(name + rest) == Some(Segment(name, Some(Decimal.Value(rest[1..|rest| - 1]))))
  {
    var raw := name + rest;
    assert raw[|raw| - 1] == rest[|rest| - 1];
    assert Chopped(raw) == raw;
    WordEndsHere(name, rest);
    assert raw[..|name|] == name && raw[|name|..] == rest;
  }

  lemma IndexedRoundTrip(name: string, index: nat)
    requires IsWord(name)
    ensures var raw := name + "[" + Decimal.Numeral(index) + "]";
            MatchSegment(raw) == Some(Segment(name, Some(index))) && Slashless(raw)
  {
    var numeral := Decimal.Numeral(index);
    var rest := "[" + numeral + "]";
    assert name + "[" + numeral + "]" == name + rest;
    assert rest[1..|rest| - 1] == numeral;
    Decimal.ValueOfNumeral(index);
    MatchesIndexed(name, rest);
    NumeralIsSlashless(name, numeral);
  }

  lemma SegmentRoundTrip(s: Segment)
    requires IsWord(s.name)
    ensures MatchSegment(PrintSegment(s)) == Some(s) && Slashless(PrintSegment(s)) && PrintSegment(s) != ""
  {
    if s.index.None? {
      PlainRoundTrip(s.name);
    } else {
      IndexedRoundTrip(s.name, s.index.value);
    }
  }

  lemma NumeralIsSlashless(name: string, numeral: string)
    requires IsWord(name) && Decimal.AllDigits(numeral)
    ensures Slashless(name + "[" + numeral + "]")
  {
    var raw := name + "[" + numeral + "]";
    forall i | 0 <= i < |raw| ensures raw[i] != '/' {
      assert i < |name| ==> raw[i] == name[i] && IsWordChar(name[i]);
      assert |name| < i < |raw| - 1 ==> raw[i] == numeral[i - |name| - 1];
    }
  }

  /** Parsing a printed path gives the path back. */
  lemma RoundTrip(p: Path)
    requires Good(p)
    ensures ParsesTo(Print(p), p)
  {
    if p != [] {
      var parts := PrintAll(p);
      forall i | 0 <= i < |p| ensures Slashless(parts[i]) && ParseSegment(parts[i]) == Some(p[i]) && parts[i] != "" {
        SegmentRoundTrip(p[i]);
      }
      SplitJoin(parts);
      assert Join(parts) != "";
    }
  }

  /** Two paths that print alike are the same. */
  lemma PrintIsInjective(p: Path, q: Path)
    requires Good(p) && Good(q) && Print(p) == Print(q)
    ensures p == q
  {
    RoundTrip(p);
    RoundTrip(q);
    ParsesToOne(Print(p), p, q);
  }

  /** No newline at the end and no index with a leading zero. */
  predicate CanonicalSegment(raw: string) {
    && (raw != "" ==> raw[|raw| - 1] != '\n')
    && forall i | 0 <= i < |raw| - 2 :: raw[i] == '[' && raw[i + 1] == '0' ==> raw[i + 2] == ']'
  }

  lemma SegmentPrintsBack(raw: string)
    requires MatchSegment(raw).Some?
    ensures PrintSegment(MatchSegment(raw).value) == raw <==> CanonicalSegment(raw)
  {
    LastChar(PrintSegment(MatchSegment(raw).value), MatchSegment(raw).value);
    if raw == Chopped(raw) {
      PlainPrintsBack(raw);
    }
  }

  lemma PlainPrintsBack(raw: string)
    requires raw == Chopped(raw) && MatchSegment(raw).Some?
    ensures PrintSegment(MatchSegment(raw).value) == raw <==> CanonicalSegment(raw)
  {
    var n := WordEnd(raw);
    var name, rest := raw[..n], raw[n..];
    assert raw == name + rest;
    if rest == "" {
      assert name == raw;
      WordIsCanonical(name);
    } else {
      assert MatchSegment(raw) == Some(Segment(name, Some(Decimal.Value(rest[1..|rest| - 1]))));
      IndexPrintsBack(name, rest);
    }
  }

  lemma WordIsCanonical(name: string)
    requires IsWord(name)
    ensures CanonicalSegment(name)
  {
    assert forall i | 0 <= i < |name| :: IsWordChar(name[i]);
  }

  lemma IndexPrintsBack(name: string, rest: string)
    requires IsWord(name) && IsIndex(rest)
    ensures name + "[" + Decimal.Numeral(Decimal.Value(rest[1..|rest| - 1])) + "]" == name + rest
            <==> CanonicalSegment(name + rest)
  {
    var digits := rest[1..|rest| - 1];
    assert rest == "[" + digits + "]";
    Decimal.NumeralOfValue(digits);
    IndexIsCanonical(name, digits);
    SameIndex(name, Decimal.Numeral(Decimal.Value(digits)), digits);
  }

  lemma LastChar(printed: string, s: Segment)
    requires IsWord(s.name) && printed == PrintSegment(s)
    ensures printed[|printed| - 1] != '\n'
  {}

  lemma SameIndex(name: string, a: string, b: string)
    ensures name + "[" + a + "]" == name + ("[" + b + "]") <==> a == b
  {
    var s, t := name + "[" + a + "]", name + ("[" + b + "]");
    if s == t {
      assert a == s[|name| + 1..|s| - 1];
      assert b == t[|name| + 1..|t| - 1];
    }
  }

  lemma IndexIsCanonical(name: string, digits: string)
    requires IsWord(name) && Decimal.AllDigits(digits) && digits != ""
    ensures CanonicalSegment(name + ("[" + digits + "]")) <==> Decimal.Canonical(digits)
  {
    var raw := name + ("[" + digits + "]");
    assert raw[|name|] == '[' && raw[|name| + 1] == digits[0];
    assert forall i | 0 <= i < |name| :: raw[i] == name[i] && IsWordChar(name[i]);
    assert forall i | 0 <= i < |digits| :: raw[|name| + 1 + i] == digits[i];
    assert |digits| > 1 ==> raw[|name| + 2] == digits[1] && Decimal.IsDigit(digits[1]);
    assert |digits| == 1 ==> raw[|name| + 2] == ']';
    assert forall i | |name| < i < |raw| - 1 :: raw[i] == digits[i - |name| - 1] && Decimal.IsDigit(raw[i]);
  }

  ghost predicate Canonical(text: string) {
    text != "" ==> forall i | 0 <= i < |Split(text)| :: CanonicalSegment(Split(text)[i])
  }

  /** Printing a parsed text gives the text back exactly when each of its segments is canonical. */
  lemma PrintsBackExactly(text: string, p: Path)
    requires ParsesTo(text, p)
    ensures Print(p) == text <==> Canonical(text)
  {
    if text != "" {
      var raws, parts := Split(text), PrintAll(p);
      JoinSplit(text);
      ParsedIsGood(text, p);
      forall i | 0 <= i < |p| ensures Slashless(parts[i]) && (parts[i] == raws[i] <==> CanonicalSegment(raws[i])) {
        assert ParseSegment(raws[i]) == Some(p[i]);
        SegmentPrintsBack(raws[i]);
        SegmentRoundTrip(p[i]);
      }
      if Print(p) == text {
        SplitJoin(parts);
      }
      if Canonical(text) {
        assert parts == raws;
      }
    }
  }

  lemma OneSegment(raw: string, s: Segment)
    requires raw != "" && Slashless(raw) && ParseSegment(raw) == Some(s)
    ensures ParsesTo(raw, [s]) && (Print([s]) == raw <==> CanonicalSegment(raw))
  {
    SplitOne(raw);
    assert Split(raw)[0] == raw;
    PrintsBackExactly(raw, [s]);
  }

  /** A leading zero is read but not printed. */
  lemma LeadingZeroExample()
    ensures ParsesTo("a[01]", [Segment("a", Some(1))]) && Print([Segment("a", Some(1))]) != "a[01]"
  {
    ZeroOne();
    LeadingZero("a[01]", 1);
    OneSegment("a[01]", Segment("a", Some(1)));
  }

  lemma LeadingZero(raw: string, i: nat)
    requires i + 2 < |raw| && raw[i] == '[' && raw[i + 1] == '0' && raw[i + 2] != ']'
    ensures !CanonicalSegment(raw)
  {}

  lemma ZeroOne()
    ensures ParseSegment("a[01]") == Some(Segment("a", Some(1)))
  {
    var raw, name, rest := "a[01]", "a", "[01]";
    assert raw == name + rest && raw[..1] == name && raw[1..] == rest;
    WordEndsHere(name, rest);
    NotReserved(name);
    assert rest[1..3] == "01";
    assert Decimal.AllDigits("01") && Decimal.Value("01") == 1 by {
      assert "01"[..1] == "0" && "0"[..0] == "";
    }
  }

  /** One newline at the end is accepted but not printed. */
  lemma NewlineExample()
    ensures ParsesTo("a\n", [Segment("a", None)]) && Print([Segment("a", None)]) != "a\n"
  {
    var raw, name := "a\n", "a";
    assert Chopped(raw) == name && name + "" == name && name[..1] == name && name[1..] == "";
    WordEndsHere(name, "");
    NotReserved(name);
    OneSegment(raw, Segment(name, None));
  }

  lemma NotReserved(id: string)
    requires |id| == 1
    ensures id !in RESERVED_ROOTS
  {
    forall i | 0 <= i < |RESERVED_ROOTS| ensures |RESERVED_ROOTS[i]| > 1 {}
  }

  // ----- order ----------------------------------------------------------------------------------

  type Key = (string, int)

  function KeyOf(s: Segment): Key {
    (s.name, if s.index.Some? then s.index.value else -1)
  }

  function SortKey(p: Path): seq<Key> {
    seq(|p|, i requires 0 <= i < |p| => KeyOf(p[i]))
  }

  function CompareChars(a: char, b: char): int {
    a as int - b as int
  }

  function CompareKeys(a: Key, b: Key): int {
    var c := Lexicographic.Compare(CompareChars, a.0, b.0);
    if c != 0 then c else a.1 - b.1
  }

  predicate Less(p: Path, q: Path) {
    Lexicographic.Compare(CompareKeys, SortKey(p), SortKey(q)) < 0
  }

  lemma KeysAreOrdered()
    ensures Lexicographic.IsOrder(CompareKeys)
  {
    Lexicographic.IsOrderOfSequences(CompareChars);
    var names := (a, b) => Lexicographic.Compare(CompareChars, a, b);
    forall a, b: Key
      ensures CompareKeys(a, b) == 0 <==> a == b
      ensures CompareKeys(a, b) < 0 <==> CompareKeys(b, a) > 0
    {
      assert names(a.0, b.0) == 0 <==> a.0 == b.0;
      assert names(a.0, b.0) < 0 <==> names(b.0, a.0) > 0;
      assert names(b.0, a.0) < 0 <==> names(a.0, b.0) > 0;
    }
    forall a, b, c: Key | CompareKeys(a, b) < 0 && CompareKeys(b, c) < 0 ensures CompareKeys(a, c) < 0 {
      assert names(a.0, b.0) == 0 <==> a.0 == b.0;
      assert names(b.0, c.0) == 0 <==> b.0 == c.0;
      assert names(a.0, b.0) < 0 && names(b.0, c.0) < 0 ==> names(a.0, c.0) < 0;
    }
  }

  lemma SortKeyIsInjective(p: Path, q: Path)
    requires SortKey(p) == SortKey(q)
    ensures p == q
  {
    forall i | 0 <= i < |p| ensures p[i] == q[i] {
      assert SortKey(p)[i] == SortKey(q)[i];
    }
    assert |SortKey(p)| == |SortKey(q)|;
  }

  /** Names compare like words in a dictionary of characters. */
  ghost predicate NameLess(a: string, b: string) {
    a < b || exists k: nat :: NameLessAt(a, b, k)
  }

  predicate NameLessAt(a: string, b: string, k: nat) {
    k < |a| && k < |b| && a[..k] == b[..k] && a[k] < b[k]
  }

  /** By name; of one name the plain one first, then by number. */
  ghost predicate SegmentLess(s: Segment, t: Segment) {
    || NameLess(s.name, t.name)
    || (s.name == t.name && t.index.Some? && (s.index.None? || s.index.value < t.index.value))
  }

  ghost predicate PathLessAt(p: Path, q: Path, k: nat) {
    k < |p| && k < |q| && p[..k] == q[..k] && SegmentLess(p[k], q[k])
  }

  lemma CharsAreOrdered()
    ensures Lexicographic.IsOrder(CompareChars)
  {}

  lemma NamesPrecede(a: string, b: string)
    ensures Lexicographic.Precedes(CompareChars, a, b) <==> NameLess(a, b)
  {
    forall k: nat ensures Lexicographic.LessAt(CompareChars, a, b, k) <==> NameLessAt(a, b, k) {}
  }

  lemma KeyLessExactly(s: Segment, t: Segment)
    ensures CompareKeys(KeyOf(s), KeyOf(t)) < 0 <==> SegmentLess(s, t)
  {
    CharsAreOrdered();
    Lexicographic.PrecedesExactly(CompareChars, s.name, t.name);
    Lexicographic.EqualExactly(CompareChars, s.name, t.name);
    NamesPrecede(s.name, t.name);
  }

  lemma SamePrefix(p: Path, q: Path, k: nat)
    requires k <= |p| && k <= |q|
    ensures SortKey(p)[..k] == SortKey(q)[..k] <==> p[..k] == q[..k]
  {
    assert SortKey(p)[..k] == SortKey(p[..k]) && SortKey(q)[..k] == SortKey(q[..k]);
    if SortKey(p[..k]) == SortKey(q[..k]) {
      SortKeyIsInjective(p[..k], q[..k]);
    }
  }

  lemma LessAtExactly(p: Path, q: Path, k: nat)
    ensures Lexicographic.LessAt(CompareKeys, SortKey(p), SortKey(q), k) <==> PathLessAt(p, q, k)
  {
    if k < |p| && k < |q| {
      SamePrefix(p, q, k);
      KeyLessExactly(p[k], q[k]);
    }
  }

  lemma AncestorExactly(p: Path, q: Path)
    ensures SortKey(p) < SortKey(q) <==> p < q
  {
    if |p| < |q| {
      SamePrefix(p, q, |p|);
      assert SortKey(p)[..|p|] == SortKey(p) && p[..|p|] == p;
    }
  }

  /** Exactly when one path sorts before another: it is an ancestor, or less where they first differ. */
  lemma LessExactly(p: Path, q: Path)
    ensures Less(p, q) <==> p < q || exists k: nat :: PathLessAt(p, q, k)
  {
    KeysAreOrdered();
    Lexicographic.PrecedesExactly(CompareKeys, SortKey(p), SortKey(q));
    AncestorExactly(p, q);
    forall k: nat
      ensures Lexicographic.LessAt(CompareKeys, SortKey(p), SortKey(q), k) <==> PathLessAt(p, q, k)
    {
      LessAtExactly(p, q, k);
    }
  }

  /** Paths are strictly and totally ordered, consistently with equality. */
  lemma PathsAreTotallyOrdered(p: Path, q: Path, r: Path)
    ensures !Less(p, p) && !(Less(p, q) && Less(q, p))
    ensures Less(p, q) || p == q || Less(q, p)
    ensures Less(p, q) && Less(q, r) ==> Less(p, r)
  {
    KeysAreOrdered();
    Lexicographic.EqualExactly(CompareKeys, SortKey(p), SortKey(q));
    Lexicographic.Antisymmetric(CompareKeys, SortKey(p), SortKey(q));
    Lexicographic.Antisymmetric(CompareKeys, SortKey(q), SortKey(p));
    Lexicographic.EqualExactly(CompareKeys, SortKey(p), SortKey(p));
    if Less(p, q) && Less(q, r) {
      Lexicographic.Transitive(CompareKeys, SortKey(p), SortKey(q), SortKey(r));
    }
    if SortKey(p) == SortKey(q) {
      SortKeyIsInjective(p, q);
    }
  }
}
