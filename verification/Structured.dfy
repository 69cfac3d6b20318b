/** Finding a JSON document inside the free text of an answer. */
module Structured {
  import opened Options
  import opened Json

  /** Where the bracket scanner stands: nesting depth, inside a string, just after a backslash. */
  datatype Scan = Scan(depth: int, inStr: bool, escape: bool)

  predicate IsOpener(c: char) {
    c == '{' || c == '['
  }

  predicate IsCloser(c: char) {
    c == '}' || c == ']'
  }

  function Step(s: Scan, c: char): Scan {
    if s.inStr then
      if s.escape then s.(escape := false)
      else if c == '\\' then s.(escape := true)
      else if c == '"' then s.(inStr := false)
      else s
    else if c == '"' then s.(inStr := true)
    else if IsOpener(c) then s.(depth := s.depth + 1)
    else if IsCloser(c) then s.(depth := s.depth - 1)
    else s
  }

  function Run(s: Scan, text: string): Scan {
    if text == "" then s else Step(Run(s, text[..|text| - 1]), text[|text| - 1])
  }

  function At(depth: int): Scan {
    Scan(depth, false, false)
  }

  /** The scan that starts at the opener `text[start]` first returns to depth 0 at `end`. */
  ghost predicate IsSpan(text: string, start: nat, end: nat) {
    && start < end <= |text| && IsOpener(text[start])
    && Run(At(0), text[start..end]).depth == 0
    && forall k | start < k < end :: Run(At(0), text[start..k]).depth != 0
  }

  ghost predicate Listed(text: string, n: nat, starts: seq<nat>) {
    forall start: nat, end: nat | start < n && IsSpan(text, start, end) :: start in starts
  }

  ghost predicate IsSpanText(text: string, start: nat, span: string) {
    && start + |span| <= |text| && span == text[start..start + |span|]
    && IsSpan(text, start, start + |span|)
  }

  ghost predicate Opens(text: string, start: nat) {
    exists end: nat :: IsSpan(text, start, end)
  }

  /** The spans of the openers before `n`, outermost first. */
  ghost function Spans(text: string, n: nat): seq<string> {
    if n == 0 then []
    else if Opens(text, n - 1) then
      var end: nat :| IsSpan(text, n - 1, end);
      Spans(text, n - 1) + [text[n - 1..end]]
    else Spans(text, n - 1)
  }

  /** The spans of the openers before `n`, in the order of their starts, and no other text. */
  ghost predicate AreSpans(text: string, n: nat, starts: seq<nat>, spans: seq<string>) {
    && |starts| == |spans|
    && (forall i, j | 0 <= i < j < |starts| :: starts[i] < starts[j])
    && (forall i | 0 <= i < |starts| :: starts[i] < n && IsSpanText(text, starts[i], spans[i]))
    && Listed(text, n, starts)
  }

  lemma OneEnd(text: string, start: nat, end: nat, end': nat)
    requires IsSpan(text, start, end) && IsSpan(text, start, end')
    ensures end == end'
  {}

  lemma RunOne(s: Scan, text: string, c: char)
    ensures Run(s, text + [c]) == Step(Run(s, text), c)
  {
    assert (text + [c])[..|text|] == text;
  }

  lemma RunNext(s: Scan, text: string, start: nat, end: nat)
    requires start <= end < |text|
    ensures Run(s, text[start..end + 1]) == Step(Run(s, text[start..end]), text[end])
  {
    RunOne(s, text[start..end], text[end]);
    assert text[start..end] + [text[end]] == text[start..end + 1];
  }

  /** The end of the span that starts at an opener, if its bracket is ever closed. */
  method SpanEnd(text: string, start: nat) returns (found: Option<nat>)
    requires start < |text| && IsOpener(text[start])
    ensures found.Some? ==> IsSpan(text, start, found.value)
    ensures found.None? ==> forall end: nat :: !IsSpan(text, start, end)
  {
    var depth, inStr, escape := 0, false, false;
    var end := start;
    while end < |text|
      invariant start <= end <= |text|
      invariant Run(At(0), text[start..end]) == Scan(depth, inStr, escape)
      invariant forall k | start < k <= end :: Run(At(0), text[start..k]).depth != 0
      invariant start < end ==> depth > 0
      invariant start == end ==> Scan(depth, inStr, escape) == At(0)
    {
      var c := text[end];
      RunNext(At(0), text, start, end);
      end := end + 1;
      if inStr {
        if escape {
          escape := false;
        } else if c == '\\' {
          escape := true;
        } else if c == '"' {
          inStr := false;
        }
        continue;
      }
      if c == '"' {
        inStr := true;
      } else if IsOpener(c) {
        depth := depth + 1;
      } else if IsCloser(c) {
        depth := depth - 1;
        if depth == 0 {
          return Some(end);
        }
      }
    }
    return None;
  }

  lemma ListedMore(text: string, n: nat, starts: seq<nat>)
    requires Listed(text, n, starts)
    ensures Listed(text, n + 1, starts + [n])
  {
    forall start: nat, end: nat | start < n + 1 && IsSpan(text, start, end) ensures start in starts + [n] {
      assert start < n ==> start in starts;
    }
  }

  lemma SpansMore(text: string, n: nat, starts: seq<nat>, spans: seq<string>, end: nat)
    requires AreSpans(text, n, starts, spans) && IsSpan(text, n, end)
    ensures AreSpans(text, n + 1, starts + [n], spans + [text[n..end]])
  {
    ListedMore(text, n, starts);
    var starts', spans' := starts + [n], spans + [text[n..end]];
    assert IsSpanText(text, n, text[n..end]);
    forall i | 0 <= i < |starts'| ensures starts'[i] < n + 1 && IsSpanText(text, starts'[i], spans'[i]) {
      assert i < |starts| ==> starts[i] < n && IsSpanText(text, starts[i], spans[i]);
    }
  }

  lemma SpansSkip(text: string, n: nat, starts: seq<nat>, spans: seq<string>)
    requires AreSpans(text, n, starts, spans)
    requires forall end: nat :: !IsSpan(text, n, end)
    ensures AreSpans(text, n + 1, starts, spans)
  {
    forall start: nat, end: nat | start < n + 1 && IsSpan(text, start, end) ensures start in starts {
      assert start != n;
    }
  }

  lemma NextSpan(text: string, n: nat, end: nat)
    requires IsSpan(text, n, end)
    ensures Spans(text, n + 1) == Spans(text, n) + [text[n..end]]
  {
    assert Opens(text, n);
    forall e: nat | IsSpan(text, n, e) ensures e == end {
      OneEnd(text, n, end, e);
    }
  }

  lemma NextAreAll(text: string, n: nat, starts: seq<nat>) returns (more: seq<nat>)
    requires AreSpans(text, n, starts, Spans(text, n))
    ensures AreSpans(text, n + 1, more, Spans(text, n + 1))
  {
    var spans := Spans(text, n);
    if end: nat :| IsSpan(text, n, end) {
      NextSpan(text, n, end);
      SpansMore(text, n, starts, spans, end);
      more := starts + [n];
    } else {
      SpansSkip(text, n, starts, spans);
      assert !Opens(text, n);
      more := starts;
    }
  }

  lemma NoSpans(text: string)
    ensures Spans(text, 0) == [] && AreSpans(text, 0, [], [])
  {}

  /** Every span is listed, in the order of their starts, and nothing else. */
  lemma SpansAreAll(text: string, n: nat) returns (starts: seq<nat>)
    ensures AreSpans(text, n, starts, Spans(text, n))
  {
    starts := [];
    NoSpans(text);
    for i := 0 to n
      invariant AreSpans(text, i, starts, Spans(text, i))
    {
      starts := NextAreAll(text, i, starts);
    }
  }

  /** Every balanced bracketed span, outermost first. */
  method BalancedSpans(text: string) returns (spans: seq<string>)
    ensures spans == Spans(text, |text|)
  {
    spans := [];
    for start := 0 to |text|
      invariant spans == Spans(text, start)
    {
      if !IsOpener(text[start]) {
        continue;
      }
      var found := SpanEnd(text, start);
      if found.Some? {
        NextSpan(text, start, found.value);
        spans := spans + [text[start..found.value]];
      }
    }
  }

  // ----- printed values are spans ---------------------------------------------------------------

  lemma {:induction false} RunJoined(s: Scan, a: string, b: string)
    ensures Run(s, a + b) == Run(Run(s, a), b)
    decreases |b|
  {
    if b == "" {
      assert a + b == a;
    } else {
      var init := b[..|b| - 1];
      RunJoined(s, a, init);
      assert (a + b)[..|a + b| - 1] == a + init;
    }
  }

  /** However far the text is scanned, the depth does not fall below `d`. */
  ghost predicate Stays(d: int, s: Scan, text: string) {
    forall k | 0 <= k <= |text| :: Run(s, text[..k]).depth >= d
  }

  lemma StaysJoined(d: int, s: Scan, a: string, b: string)
    requires Stays(d, s, a) && Stays(d, Run(s, a), b)
    ensures Stays(d, s, a + b) && Run(s, a + b) == Run(Run(s, a), b)
  {
    RunJoined(s, a, b);
    forall k | 0 <= k <= |a + b| ensures Run(s, (a + b)[..k]).depth >= d {
      if k <= |a| {
        assert (a + b)[..k] == a[..k];
      } else {
        assert (a + b)[..k] == a + b[..k - |a|];
        RunJoined(s, a, b[..k - |a|]);
      }
    }
  }

  lemma StaysOne(d: int, s: Scan, text: string, c: char)
    requires Stays(d, s, text) && Step(Run(s, text), c).depth >= d
    ensures Stays(d, s, text + [c]) && Run(s, text + [c]) == Step(Run(s, text), c)
  {
    RunOne(s, text, c);
    forall k | 0 <= k <= |text + [c]| ensures Run(s, (text + [c])[..k]).depth >= d {
      if k <= |text| {
        assert (text + [c])[..k] == text[..k];
      } else {
        assert (text + [c])[..k] == text + [c];
      }
    }
  }

  /** Scanned outside a string at depth `d`, the text ends as it began and never goes below `d`. */
  ghost predicate Neutral(d: int, text: string) {
    Run(At(d), text) == At(d) && Stays(d, At(d), text)
  }

  lemma NeutralJoined(d: int, a: string, b: string)
    requires Neutral(d, a) && Neutral(d, b)
    ensures Neutral(d, a + b)
  {
    StaysJoined(d, At(d), a, b);
  }

  predicate Unmarked(text: string) {
    forall i | 0 <= i < |text| :: text[i] != '"' && !IsOpener(text[i]) && !IsCloser(text[i])
  }

  lemma {:induction false} NeutralPlain(d: int, text: string)
    requires Unmarked(text)
    ensures Neutral(d, text)
    decreases |text|
  {
    if text != "" {
      var init, last := text[..|text| - 1], text[|text| - 1];
      NeutralPlain(d, init);
      assert text == init + [last];
      StaysOne(d, At(d), init, last);
    }
  }

  // Inside a string the depth does not move, whatever the characters.

  lemma {:induction false} InsideChars(d: int, chars: seq<Char>)
    requires GoodString(chars)
    ensures var s := Scan(d, true, false); Run(s, PrintChars(chars)) == s && Stays(d, s, PrintChars(chars))
    decreases |chars|
  {
    if chars != [] {
      InsideChar(d, chars[0]);
      InsideChars(d, chars[1..]);
      StaysJoined(d, Scan(d, true, false), PrintChar(chars[0]), PrintChars(chars[1..]));
    }
  }

  lemma InsideChar(d: int, c: Char)
    requires GoodChar(c)
    ensures var s := Scan(d, true, false); Run(s, PrintChar(c)) == s && Stays(d, s, PrintChar(c))
  {
    var s := Scan(d, true, false);
    match c
    case Plain(p) =>
      StaysOne(d, s, "", p);
      assert [p] == "" + [p];
    case Escape(e) =>
      InsideEscape(d, e);
    case Unicode(hex) =>
      InsideEscape(d, 'u');
      assert "\\u" == ['\\', 'u'];
      InsideHex(d, hex);
      StaysJoined(d, s, "\\u", hex);
  }

  lemma InsideEscape(d: int, e: char)
    ensures var s := Scan(d, true, false); Run(s, ['\\', e]) == s && Stays(d, s, ['\\', e])
  {
    var s := Scan(d, true, false);
    StaysOne(d, s, "", '\\');
    assert "" + ['\\'] == ['\\'];
    StaysOne(d, s, ['\\'], e);
    assert ['\\'] + [e] == ['\\', e];
  }

  lemma {:induction false} InsideHex(d: int, hex: string)
    requires forall h | h in hex :: IsHex(h)
    ensures var s := Scan(d, true, false); Run(s, hex) == s && Stays(d, s, hex)
    decreases |hex|
  {
    if hex != "" {
      var init, last := hex[..|hex| - 1], hex[|hex| - 1];
      InsideHex(d, init);
      assert hex == init + [last];
      assert last in hex && forall h | h in init :: h in hex;
      StaysOne(d, Scan(d, true, false), init, last);
    }
  }

  lemma NeutralString(d: int, chars: seq<Char>)
    requires GoodString(chars)
    ensures Neutral(d, PrintString(chars))
  {
    var inside := Scan(d, true, false);
    StaysOne(d, At(d), "", '"');
    assert "" + ['"'] == "\"";
    InsideChars(d, chars);
    StaysJoined(d, At(d), "\"", PrintChars(chars));
    StaysOne(d, At(d), "\"" + PrintChars(chars), '"');
  }

  /** The depth is above `d` after every proper prefix but the empty one. */
  ghost predicate Above(d: int, text: string) {
    forall k | 0 < k < |text| :: Run(At(d), text[..k]).depth > d
  }

  lemma Opened(d: int, open: char, inner: string)
    requires IsOpener(open) && Neutral(d + 1, inner)
    ensures var body := [open] + inner;
            Run(At(d), body) == At(d + 1) && forall k | 0 < k <= |body| :: Run(At(d), body[..k]).depth > d
  {
    var body := [open] + inner;
    RunOne(At(d), "", open);
    assert "" + [open] == [open];
    RunJoined(At(d), [open], inner);
    forall k | 0 < k <= |body| ensures Run(At(d), body[..k]).depth > d {
      assert body[..k] == [open] + inner[..k - 1];
      RunJoined(At(d), [open], inner[..k - 1]);
      assert Run(At(d + 1), inner[..k - 1]).depth >= d + 1;
    }
  }

  /** A bracketed text stays above the depth it started at until its last character. */
  lemma Bracketed(d: int, open: char, inner: string, close: char)
    requires IsOpener(open) && IsCloser(close) && Neutral(d + 1, inner)
    ensures var text := [open] + inner + [close]; Neutral(d, text) && Above(d, text)
  {
    var body := [open] + inner;
    Opened(d, open, inner);
    assert Stays(d, At(d), body);
    StaysOne(d, At(d), body, close);
    forall k | 0 < k < |body + [close]| ensures Run(At(d), (body + [close])[..k]).depth > d {
      assert (body + [close])[..k] == body[..k];
    }
  }

  lemma NeutralSpace(d: int, s: string)
    requires IsSpace(s)
    ensures Neutral(d, s)
  {
    assert forall i | 0 <= i < |s| :: s[i] in s;
    NeutralPlain(d, s);
  }

  function Inner(v: Value): string
    requires IsContainer(v)
  {
    if v.Arr? then v.pad + PrintItems(v.items) else v.pad + PrintMembers(v.members)
  }

  lemma ContainerPrints(v: Value)
    requires IsContainer(v)
    ensures Print(v) == [if v.Arr? then '[' else '{'] + Inner(v) + [if v.Arr? then ']' else '}']
  {}

  lemma ContainerIsBracketed(d: int, v: Value)
    requires IsContainer(v) && Neutral(d + 1, Inner(v))
    ensures Neutral(d, Print(v)) && Above(d, Print(v))
  {
    ContainerPrints(v);
    Bracketed(d, if v.Arr? then '[' else '{', Inner(v), if v.Arr? then ']' else '}');
  }

  /** A printed value leaves the scanner as it found it, at every depth. */
  lemma {:induction false} PrintedIsNeutral(d: int, v: Value)
    requires Good(v)
    ensures Neutral(d, Print(v))
    decreases v
  {
    match v
    case Atom(text) =>
      assert forall i | 0 <= i < |text| :: text[i] in text;
      NeutralPlain(d, text);
    case Str(chars) => NeutralString(d, chars);
    case Arr(_, _) =>
      InnerIsNeutral(d + 1, v);
      ContainerIsBracketed(d, v);
    case Obj(_, _) =>
      InnerIsNeutral(d + 1, v);
      ContainerIsBracketed(d, v);
  }

  lemma {:induction false} InnerIsNeutral(d: int, v: Value)
    requires Good(v) && IsContainer(v)
    ensures Neutral(d, Inner(v))
    decreases v, 0
  {
    NeutralSpace(d, v.pad);
    if v.Arr? {
      ItemsAreNeutral(d, v.items);
      NeutralJoined(d, v.pad, PrintItems(v.items));
    } else {
      MembersAreNeutral(d, v.members);
      NeutralJoined(d, v.pad, PrintMembers(v.members));
    }
  }

  lemma {:induction false} ItemsAreNeutral(d: int, items: Items)
    requires GoodItems(items)
    ensures Neutral(d, PrintItems(items))
    decreases items
  {
    match items
    case NoItems => NeutralPlain(d, "");
    case Item(before, value, after, rest) =>
      NeutralSpace(d, before);
      PrintedIsNeutral(d, value);
      NeutralSpace(d, after);
      NeutralJoined(d, before, Print(value));
      NeutralJoined(d, before + Print(value), after);
      var first := before + Print(value) + after;
      if rest.NoItems? {
        assert first + "" == first;
      } else {
        ItemsAreNeutral(d, rest);
        NeutralPlain(d, ",");
        NeutralJoined(d, ",", PrintItems(rest));
        NeutralJoined(d, first, "," + PrintItems(rest));
      }
  }

  lemma ColonIsNeutral(d: int, before: string, after: string)
    requires IsSpace(before) && IsSpace(after)
    ensures Neutral(d, before + ":" + after)
  {
    NeutralSpace(d, before);
    NeutralPlain(d, ":");
    NeutralJoined(d, before, ":");
    NeutralSpace(d, after);
    NeutralJoined(d, before + ":", after);
  }

  lemma {:induction false} MembersAreNeutral(d: int, members: Members)
    requires GoodMembers(members)
    ensures Neutral(d, PrintMembers(members))
    decreases members
  {
    match members
    case NoMembers => NeutralPlain(d, "");
    case Member(before, key, beforeColon, afterColon, value, after, rest) =>
      NeutralSpace(d, before);
      NeutralString(d, key);
      NeutralJoined(d, before, PrintString(key));
      ColonIsNeutral(d, beforeColon, afterColon);
      NeutralJoined(d, before + PrintString(key), beforeColon + ":" + afterColon);
      PrintedIsNeutral(d, value);
      NeutralJoined(d, before + PrintString(key) + (beforeColon + ":" + afterColon), Print(value));
      NeutralSpace(d, after);
      NeutralJoined(d, before + PrintString(key) + (beforeColon + ":" + afterColon) + Print(value), after);
      var first := before + PrintString(key) + (beforeColon + ":" + afterColon) + Print(value) + after;
      if rest.NoMembers? {
        assert first + "" == first;
      } else {
        MembersAreNeutral(d, rest);
        NeutralPlain(d, ",");
        NeutralJoined(d, ",", PrintMembers(rest));
        NeutralJoined(d, first, "," + PrintMembers(rest));
      }
  }

  /** Whatever text surrounds it, a printed object or array is exactly the span at its start. */
  lemma EmbeddedIsSpan(prefix: string, v: Value, suffix: string)
    requires Good(v) && IsContainer(v)
    ensures IsSpan(prefix + Print(v) + suffix, |prefix|, |prefix| + |Print(v)|)
  {
    var text, start, end := prefix + Print(v) + suffix, |prefix|, |prefix| + |Print(v)|;
    InnerIsNeutral(1, v);
    ContainerIsBracketed(0, v);
    ContainerPrints(v);
    Middle(prefix, Print(v), suffix);
    forall k | start < k < end ensures Run(At(0), text[start..k]).depth != 0 {
      assert text[start..start + (k - start)] == Print(v)[..k - start];
    }
  }

  lemma Middle(a: string, b: string, c: string)
    ensures (a + b + c)[|a|..|a| + |b|] == b && (b != "" ==> (a + b + c)[|a|] == b[0])
    ensures forall k | 0 <= k <= |b| :: (a + b + c)[|a|..|a| + k] == b[..k]
  {}

  // ----- the answer -----------------------------------------------------------------------------

  /** The value of the first candidate the parser accepts. */
  function FirstParsed<T>(parse: string -> Option<T>, candidates: seq<string>): Option<T> {
    if candidates == [] then None
    else if parse(candidates[0]).Some? then parse(candidates[0])
    else FirstParsed(parse, candidates[1..])
  }

  lemma {:induction false} ParsedExactly<T>(parse: string -> Option<T>, candidates: seq<string>)
    ensures FirstParsed(parse, candidates).Some? <==> exists c | c in candidates :: parse(c).Some?
    decreases |candidates|
  {
    if candidates != [] {
      ParsedExactly(parse, candidates[1..]);
      assert forall c :: c in candidates <==> c == candidates[0] || c in candidates[1..];
    }
  }

  lemma {:induction false} ParsedJoined<T>(parse: string -> Option<T>, a: seq<string>, b: seq<string>)
    ensures FirstParsed(parse, a + b) ==
            if FirstParsed(parse, a).Some? then FirstParsed(parse, a) else FirstParsed(parse, b)
    decreases |a|
  {
    if a == [] {
      assert a + b == b;
    } else {
      assert (a + b)[1..] == a[1..] + b;
      ParsedJoined(parse, a[1..], b);
    }
  }

  method TryAll<T>(parse: string -> Option<T>, candidates: seq<string>) returns (value: Option<T>)
    ensures value == FirstParsed(parse, candidates)
  {
    for i := 0 to |candidates|
      invariant FirstParsed(parse, candidates) == FirstParsed(parse, candidates[i..])
    {
      value := parse(candidates[i]);
      if value.Some? {
        return;
      }
      assert candidates[i..][1..] == candidates[i + 1..];
    }
    return None;
  }

  /** The whole text, then the fenced blocks, then the balanced spans: the first that parses. */
  method ExtractJson<T>(parse: string -> Option<T>, strip: string -> string, fenced: string -> seq<string>,
                        text: string)
    returns (value: Option<T>)
    ensures value == FirstParsed(parse, Candidates(strip(text), fenced(text), Spans(text, |text|)))
  {
    var stripped := strip(text);
    var spans := BalancedSpans(text);
    ParsedJoined(parse, if stripped == "" then [] else [stripped], fenced(text));
    ParsedJoined(parse, (if stripped == "" then [] else [stripped]) + fenced(text), spans);
    if stripped != "" {
      value := parse(stripped);
      if value.Some? {
        return;
      }
    }
    value := TryAll(parse, fenced(text));
    if value.Some? {
      return;
    }
    value := TryAll(parse, spans);
  }

  function Candidates(stripped: string, fenced: seq<string>, spans: seq<string>): seq<string> {
    (if stripped == "" then [] else [stripped]) + fenced + spans
  }

  /** The value of the first that parses. */
  lemma {:induction false} FirstIsReturned<T>(parse: string -> Option<T>, candidates: seq<string>, i: nat)
    requires i < |candidates| && parse(candidates[i]).Some? && forall j | 0 <= j < i :: parse(candidates[j]).None?
    ensures FirstParsed(parse, candidates) == parse(candidates[i])
    decreases i
  {
    if i > 0 {
      assert forall j | 0 <= j < i - 1 :: candidates[1..][j] == candidates[j + 1];
      FirstIsReturned(parse, candidates[1..], i - 1);
    }
  }

  /** The whole text when it parses, unless it is blank; else the first fenced block that parses, however
      many spans do; else the first span that parses. */
  lemma AnswerExactly<T>(parse: string -> Option<T>, stripped: string, fenced: seq<string>, spans: seq<string>)
    ensures var answer := FirstParsed(parse, Candidates(stripped, fenced, spans));
            && (stripped != "" && parse(stripped).Some? ==> answer == parse(stripped))
            && (stripped == "" || parse(stripped).None? ==>
                  && (forall i | 0 <= i < |fenced| && parse(fenced[i]).Some?
                                 && forall j | 0 <= j < i :: parse(fenced[j]).None? :: answer == parse(fenced[i]))
                  && ((forall c | c in fenced :: parse(c).None?) ==>
                        forall i | 0 <= i < |spans| && parse(spans[i]).Some?
                                   && forall j | 0 <= j < i :: parse(spans[j]).None? :: answer == parse(spans[i])))
  {
    var whole := if stripped == "" then [] else [stripped];
    ParsedJoined(parse, whole + fenced, spans);
    ParsedJoined(parse, whole, fenced);
    ParsedExactly(parse, fenced);
    forall i | 0 <= i < |fenced| && parse(fenced[i]).Some? && forall j | 0 <= j < i :: parse(fenced[j]).None?
      ensures FirstParsed(parse, fenced) == parse(fenced[i])
    {
      FirstIsReturned(parse, fenced, i);
    }
    forall i | 0 <= i < |spans| && parse(spans[i]).Some? && forall j | 0 <= j < i :: parse(spans[j]).None?
      ensures FirstParsed(parse, spans) == parse(spans[i])
    {
      FirstIsReturned(parse, spans, i);
    }
  }

  /** A text that contains a printed object or array the parser accepts always yields a value. */
  lemma EmbeddedIsFound<T>(parse: string -> Option<T>, stripped: string, fenced: seq<string>,
                           prefix: string, v: Value, suffix: string)
    requires Good(v) && IsContainer(v) && parse(Print(v)).Some?
    ensures var text := prefix + Print(v) + suffix;
            FirstParsed(parse, Candidates(stripped, fenced, Spans(text, |text|))).Some?
  {
    var text := prefix + Print(v) + suffix;
    var spans := Spans(text, |text|);
    var starts := SpansAreAll(text, |text|);
    SpanListed(prefix, v, suffix, spans, starts);
    ParsedExactly(parse, Candidates(stripped, fenced, spans));
    assert Print(v) in Candidates(stripped, fenced, spans);
  }

  /** When nothing opens before it and neither the whole text nor a fenced block parses, the value
      is the one printed. */
  lemma EmbeddedIsReturned<T>(parse: string -> Option<T>, stripped: string, fenced: seq<string>,
                              prefix: string, v: Value, suffix: string)
    requires Good(v) && IsContainer(v) && parse(Print(v)).Some? && forall c | c in prefix :: !IsOpener(c)
    requires parse(stripped).None? && forall c | c in fenced :: parse(c).None?
    ensures var text := prefix + Print(v) + suffix;
            FirstParsed(parse, Candidates(stripped, fenced, Spans(text, |text|))) == parse(Print(v))
  {
    var text := prefix + Print(v) + suffix;
    var spans := Spans(text, |text|);
    var starts := SpansAreAll(text, |text|);
    FirstSpan(prefix, v, suffix, spans, starts);
    var earlier := (if stripped == "" then [] else [stripped]) + fenced;
    ParsedJoined(parse, earlier, spans);
    ParsedExactly(parse, earlier);
  }

  lemma SpanListed(prefix: string, v: Value, suffix: string, spans: seq<string>, starts: seq<nat>)
    requires Good(v) && IsContainer(v)
    requires var text := prefix + Print(v) + suffix; AreSpans(text, |text|, starts, spans)
    ensures Print(v) in spans
  {
    var text := prefix + Print(v) + suffix;
    EmbeddedIsSpan(prefix, v, suffix);
    var i := SpanAt(text, |prefix|, |prefix| + |Print(v)|, spans, starts);
    assert text[|prefix|..|prefix| + |Print(v)|] == Print(v);
  }

  lemma SpanAt(text: string, start: nat, end: nat, spans: seq<string>, starts: seq<nat>) returns (i: nat)
    requires AreSpans(text, |text|, starts, spans) && IsSpan(text, start, end)
    ensures i < |spans| && starts[i] == start && spans[i] == text[start..end]
  {
    assert start in starts;
    i :| 0 <= i < |starts| && starts[i] == start;
    OneEnd(text, start, end, start + |spans[i]|);
  }

  /** When nothing opens before it, the printed object or array is the first span. */
  lemma FirstSpan(prefix: string, v: Value, suffix: string, spans: seq<string>, starts: seq<nat>)
    requires Good(v) && IsContainer(v) && forall c | c in prefix :: !IsOpener(c)
    requires var text := prefix + Print(v) + suffix; AreSpans(text, |text|, starts, spans)
    ensures spans != [] && spans[0] == Print(v)
  {
    var text := prefix + Print(v) + suffix;
    EmbeddedIsSpan(prefix, v, suffix);
    var i := SpanAt(text, |prefix|, |prefix| + |Print(v)|, spans, starts);
    assert text == prefix + (Print(v) + suffix);
    assert IsSpan(text, starts[0], starts[0] + |spans[0]|);
    NoEarlier(prefix, Print(v) + suffix, starts[0]);
    assert text[|prefix|..|prefix| + |Print(v)|] == Print(v);
  }

  lemma NoEarlier(prefix: string, rest: string, start: nat)
    requires start < |prefix + rest| && IsOpener((prefix + rest)[start]) && forall c | c in prefix :: !IsOpener(c)
    ensures start >= |prefix|
  {
    assert forall k | 0 <= k < |prefix| :: prefix[k] in prefix && (prefix + rest)[k] == prefix[k];
  }
}
