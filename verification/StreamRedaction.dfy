/** One text stream, redacted as it arrives in chunks: what is held back, and why the chunk
    boundaries cannot matter. */
module StreamRedaction {
  import opened TextReplace
  import opened Redaction

  // ----- what must be held back ---------------------------------------------------------------

  /** The last `k` characters of `t` are a proper prefix of `n` (the empty one included). */
  predicate OpenTail(t: string, n: string, k: nat) {
    k <= |t| && (k == 0 || k < |n|) && t[|t| - k..] == n[..k]
  }

  /** Length of the longest suffix of `text` that is a proper prefix of `needle`. */
  method SuffixPrefixLen(text: string, needle: string) returns (k: nat)
    ensures OpenTail(text, needle, k)
    ensures forall j: nat | k < j :: !OpenTail(text, needle, j)
  {
    var span := if |needle| - 1 < |text| then |needle| - 1 else |text|;
    if span <= 0 {
      return 0;
    }
    var tail := text[|text| - span..];
    var start := 0;
    while true
      invariant 0 <= start <= |tail|
      invariant forall i | 0 <= i < start :: !(tail[i..] <= needle)
      decreases |tail| - start
    {
      var index := Find(tail, needle[..1], start);
      NoTailBefore(tail, needle, start);
      if index < 0 {
        NoOpenTail(text, needle, tail, |tail|);
        return 0;
      }
      if tail[index..] <= needle {
        NoOpenTail(text, needle, tail, index);
        return |tail| - index;
      }
      start := index + 1;
    }
  }

  lemma NoTailBefore(tail: string, needle: string, start: nat)
    requires needle != "" && start <= |tail|
    ensures var index := Find(tail, needle[..1], start);
            index < |tail| &&
            forall i | start <= i < |tail| && !(0 <= index <= i) :: !(tail[i..] <= needle)
  {
    forall i | start <= i < |tail| && tail[i..] <= needle ensures 0 <= Find(tail, needle[..1], start) <= i {
      assert tail[i..][0] == needle[0];
      assert tail[i..i + 1] == needle[..1];
      assert OccursAt(tail, needle[..1], i);
    }
  }

  lemma NoOpenTail(text: string, needle: string, tail: string, index: nat)
    requires 0 < |tail| <= |text| && tail == text[|text| - |tail|..]
    requires |tail| == |needle| - 1 || (|tail| == |text| && |tail| < |needle|)
    requires index <= |tail| && forall i | 0 <= i < index :: !(tail[i..] <= needle)
    ensures forall j: nat | |tail| - index < j :: !OpenTail(text, needle, j)
  {
    forall j: nat | |tail| - index < j ensures !OpenTail(text, needle, j) {
      if j <= |tail| {
        assert tail[|tail| - j..] == text[|text| - j..];
        assert !(tail[|tail| - j..] <= needle);
      }
    }
  }

  /** The longest tail of `text` that could still become part of a match. */
  ghost predicate IsHold(lits: seq<Literal>, text: string, h: nat) {
    && (h == 0 || exists l | l in lits :: OpenTail(text, l.needle, h))
    && forall l, j: nat | l in lits && h < j :: !OpenTail(text, l.needle, j)
  }

  method Hold(lits: seq<Literal>, text: string) returns (hold: nat)
    ensures hold <= |text| && IsHold(lits, text, hold)
  {
    hold := 0;
    for i := 0 to |lits|
      invariant hold <= |text| && IsHold(lits[..i], text, hold)
    {
      var k := SuffixPrefixLen(text, lits[i].needle);
      assert lits[..i + 1] == lits[..i] + [lits[i]];
      if hold < k {
        hold := k;
      }
    }
    assert lits[..|lits|] == lits;
  }

  /** `cut` moved back until no complete match straddles it, and no further. */
  method KeepMatchesWhole(lits: seq<Literal>, raw: string, cut: nat) returns (c: nat)
    requires Table(lits) && cut <= |raw|
    ensures c <= cut && SafeFor(lits, raw, c)
    ensures forall c' | c < c' <= cut :: !SafeFor(lits, raw, c')
  {
    c := cut;
    while c > 0
      invariant c <= cut
      invariant forall c' | c < c' <= cut :: !SafeFor(lits, raw, c')
    {
      var earliest := c;
      for i := 0 to |lits|
        invariant earliest <= c
        invariant earliest == c ==> forall l | l in lits[..i] :: SafeCut(raw, l.needle, c)
        invariant earliest < c ==>
          exists l | l in lits :: OccursAt(raw, l.needle, earliest) && c < earliest + |l.needle|
      {
        var needle := lits[i].needle;
        var index := Find(raw, needle, if c - |needle| + 1 < 0 then 0 else c - |needle| + 1);
        assert lits[..i + 1] == lits[..i] + [lits[i]];
        assert 0 <= index < c || SafeCut(raw, needle, c);
        if 0 <= index < c {
          assert OccursAt(raw, lits[i].needle, index);
          earliest := if index < earliest then index else earliest;
        }
      }
      assert lits[..|lits|] == lits;
      if earliest == c {
        return;
      }
      forall c' | earliest < c' <= c ensures !SafeFor(lits, raw, c') {
        var l :| l in lits && OccursAt(raw, l.needle, earliest) && c < earliest + |l.needle|;
        assert !SafeCut(raw, l.needle, c');
      }
      c := earliest;
    }
  }

  // ----- the boundary -------------------------------------------------------------------------

  /** Whatever arrives next, no match straddles `cut`. */
  ghost predicate SafeForever(lits: seq<Literal>, raw: string, cut: nat) {
    forall f: string :: SafeFor(lits, raw + f, cut)
  }

  ghost predicate IsBoundary(lits: seq<Literal>, raw: string, c: nat) {
    c <= |raw| && SafeForever(lits, raw, c)
    && forall c': nat | c < c' <= |raw| :: !SafeForever(lits, raw, c')
  }

  ghost function LastSafe(lits: seq<Literal>, raw: string, c: nat): (b: nat)
    requires c <= |raw|
    ensures b <= c && SafeForever(lits, raw, b)
    ensures forall c': nat | b < c' <= c :: !SafeForever(lits, raw, c')
  {
    if c == 0 || SafeForever(lits, raw, c) then c else LastSafe(lits, raw, c - 1)
  }

  /** How much of `raw` can be released: the last position that is safe whatever follows. */
  ghost function Boundary(lits: seq<Literal>, raw: string): (b: nat)
    ensures IsBoundary(lits, raw, b)
  {
    LastSafe(lits, raw, |raw|)
  }

  /** Holding back the open tail and then keeping matches whole finds exactly the boundary. */
  lemma HoldThenKeepIsBoundary(lits: seq<Literal>, raw: string, h: nat, c: nat)
    requires Table(lits) && h <= |raw| && IsHold(lits, raw, h)
    requires c <= |raw| - h && SafeFor(lits, raw, c)
    requires forall c' | c < c' <= |raw| - h :: !SafeFor(lits, raw, c')
    ensures c == Boundary(lits, raw)
  {
    CutIsSafeForever(lits, raw, h, c);
    forall c': nat | c < c' <= |raw| ensures !SafeForever(lits, raw, c') {
      if c' <= |raw| - h {
        assert raw + "" == raw;
        assert !SafeFor(lits, raw + "", c');
      } else {
        HeldIsUnsafe(lits, raw, h, c');
      }
    }
  }

  lemma CutIsSafeForever(lits: seq<Literal>, raw: string, h: nat, c: nat)
    requires h <= |raw| && IsHold(lits, raw, h) && c <= |raw| - h && SafeFor(lits, raw, c)
    ensures SafeForever(lits, raw, c)
  {
    forall f: string, l, i | l in lits && OccursAt(raw + f, l.needle, i) ensures !(i < c < i + |l.needle|) {
      if i < c {
        OccurrenceEndsOrIsOpen(raw, f, l.needle, i);
      }
    }
  }

  /** Inside the open tail no cut is safe: the rest of the value may arrive. */
  lemma HeldIsUnsafe(lits: seq<Literal>, raw: string, h: nat, c: nat)
    requires h <= |raw| && IsHold(lits, raw, h) && |raw| - h < c <= |raw|
    ensures !SafeForever(lits, raw, c)
  {
    var l :| l in lits && OpenTail(raw, l.needle, h);
    Completed(raw, l.needle, h);
    assert !SafeFor(lits, raw + l.needle[h..], c);
  }

  lemma Completed(raw: string, n: string, h: nat)
    requires OpenTail(raw, n, h) && h < |n|
    ensures OccursAt(raw + n[h..], n, |raw| - h)
  {
    var whole, from := raw + n[h..], |raw| - h;
    assert raw[from..] + n[h..] == n[..h] + n[h..] == n;
    assert whole == raw[..from] + n;
  }

  lemma OccurrenceEndsOrIsOpen(raw: string, f: string, n: string, i: int)
    requires OccursAt(raw + f, n, i) && i < |raw|
    ensures OccursAt(raw, n, i) || OpenTail(raw, n, |raw| - i)
  {
    if i + |n| <= |raw| {
      assert raw[i..i + |n|] == (raw + f)[i..i + |n|];
    } else {
      assert raw[i..] == (raw + f)[i..i + |n|][..|raw| - i];
    }
  }

  // ----- the stream ---------------------------------------------------------------------------

  /** What one `feed` returns, given what was pending. */
  ghost function FeedOut(lits: seq<Literal>, pending: string, text: string): string
    requires Table(lits)
  {
    if text == "" then "" else RedactAll(lits, (pending + text)[..Boundary(lits, pending + text)])
  }

  /** What is pending after one `feed`. */
  ghost function FeedRest(lits: seq<Literal>, pending: string, text: string): string {
    if text == "" then pending else (pending + text)[Boundary(lits, pending + text)..]
  }

  class StreamRedactor {
    const lits: seq<Literal>
    var pending: string

    ghost predicate Valid()
      reads this
    {
      Table(lits) && (lits == [] ==> pending == "")
    }

    constructor (lits: seq<Literal>)
      requires Table(lits)
      ensures Valid() && this.lits == lits && pending == ""
    {
      this.lits := lits;
      pending := "";
    }

    method Feed(text: string) returns (out: string)
      requires Valid()
      modifies `pending
      ensures Valid()
      ensures out == FeedOut(lits, old(pending), text)
      ensures pending == FeedRest(lits, old(pending), text)
    {
      if lits == [] {
        EmptyTableHoldsNothing(text);
        return text;
      }
      if text == "" {
        return "";
      }
      var raw := pending + text;
      var hold := Hold(lits, raw);
      var cut := KeepMatchesWhole(lits, raw, |raw| - hold);
      HoldThenKeepIsBoundary(lits, raw, hold, cut);
      if cut <= 0 {
        pending := raw;
        RedactEmpty(lits);
        return "";
      }
      pending := raw[cut..];
      out := RedactValues(lits, raw[..cut]);
    }

    method Flush() returns (out: string)
      requires Valid()
      modifies `pending
      ensures Valid() && pending == ""
      ensures out == RedactAll(lits, old(pending))
    {
      if pending == "" {
        RedactEmpty(lits);
        return "";
      }
      out := RedactValues(lits, pending);
      pending := "";
    }
  }

  lemma EmptyTableHoldsNothing(text: string)
    ensures FeedOut([], "", text) == text && FeedRest([], "", text) == ""
  {
    assert SafeForever([], "" + text, |text|);
    assert "" + text == text && text[..|text|] == text && text[|text|..] == "";
  }

  // ----- the whole stream ---------------------------------------------------------------------

  function Concat(chunks: seq<string>): string {
    if chunks == [] then "" else chunks[0] + Concat(chunks[1..])
  }

  /** Everything the `feed` calls return, and what they leave pending. */
  ghost function Released(lits: seq<Literal>, pending: string, chunks: seq<string>): string
    requires Table(lits)
    decreases |chunks|
  {
    if chunks == [] then ""
    else FeedOut(lits, pending, chunks[0]) + Released(lits, FeedRest(lits, pending, chunks[0]), chunks[1..])
  }

  ghost function Held(lits: seq<Literal>, pending: string, chunks: seq<string>): string
    decreases |chunks|
  {
    if chunks == [] then pending else Held(lits, FeedRest(lits, pending, chunks[0]), chunks[1..])
  }

  /** The concatenation of every `feed` and the final `flush`. */
  ghost function StreamOut(lits: seq<Literal>, chunks: seq<string>): string
    requires Table(lits)
  {
    Released(lits, "", chunks) + RedactAll(lits, Held(lits, "", chunks))
  }

  /** One `feed`: whatever comes later, what it returned is the redaction's own beginning. */
  lemma FeedIsExact(lits: seq<Literal>, pending: string, text: string, future: string)
    requires Table(lits) && SeamFree(lits)
    ensures RedactAll(lits, pending + text + future)
         == FeedOut(lits, pending, text) + RedactAll(lits, FeedRest(lits, pending, text) + future)
  {
    var raw := pending + text;
    if text == "" {
      assert raw == pending;
    } else {
      var c := Boundary(lits, raw);
      assert SafeFor(lits, raw + future, c);
      assert raw + future == raw[..c] + (raw[c..] + future);
      RedactSplits(lits, raw[..c], raw[c..] + future);
    }
  }

  /** What has been released is always a beginning of the answer, whatever is still to come. */
  lemma {:induction false} ReleasedIsExact(lits: seq<Literal>, pending: string, chunks: seq<string>, future: string)
    requires Table(lits) && SeamFree(lits)
    ensures RedactAll(lits, pending + Concat(chunks) + future)
         == Released(lits, pending, chunks) + RedactAll(lits, Held(lits, pending, chunks) + future)
    decreases |chunks|
  {
    if chunks == [] {
      assert pending + "" + future == pending + future;
    } else {
      var rest, later := FeedRest(lits, pending, chunks[0]), Concat(chunks[1..]);
      Regroup(pending, chunks[0], later, future);
      FeedIsExact(lits, pending, chunks[0], later + future);
      Associate(rest, later, future);
      ReleasedIsExact(lits, rest, chunks[1..], future);
      Associate(FeedOut(lits, pending, chunks[0]), Released(lits, rest, chunks[1..]),
                RedactAll(lits, Held(lits, rest, chunks[1..]) + future));
    }
  }

  lemma Associate(a: string, b: string, c: string)
    ensures (a + b) + c == a + (b + c)
  {}

  lemma Regroup(a: string, b: string, c: string, d: string)
    ensures a + (b + c) + d == a + b + (c + d)
  {}

  lemma Padded(s: string)
    ensures "" + s + "" == s && s + "" == s
  {}

  /** However the text is chunked, the stream returns the redaction of the whole text. */
  lemma ChunkIndependence(lits: seq<Literal>, chunks: seq<string>)
    requires Table(lits) && SeamFree(lits)
    ensures StreamOut(lits, chunks) == RedactAll(lits, Concat(chunks))
  {
    var whole, held := Concat(chunks), Held(lits, "", chunks);
    ReleasedIsExact(lits, "", chunks, "");
    Padded(whole);
    Padded(held);
  }

  lemma ChunkIndependenceBracketFree(lits: seq<Literal>, chunks: seq<string>)
    requires BracketFreeTable(lits)
    ensures Table(lits) && StreamOut(lits, chunks) == RedactAll(lits, Concat(chunks))
  {
    BracketFreeIsSeamFree(lits);
    ChunkIndependence(lits, chunks);
  }

  /** No value can be read in what a stream returns, not even across two `feed` results. */
  lemma StreamLeaksNothing(lits: seq<Literal>, chunks: seq<string>, l: Literal)
    requires BracketFreeTable(lits) && l in lits
    requires forall i, j | 0 <= i <= j < |lits| :: !Contains(lits[j].marker, lits[i].needle)
    ensures Table(lits) && !Contains(StreamOut(lits, chunks), l.needle)
  {
    ChunkIndependenceBracketFree(lits, chunks);
    BracketFreeIsLeakFree(lits);
    NothingLeaks(lits, Concat(chunks), l);
  }
}
