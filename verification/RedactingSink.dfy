/** Many streams multiplexed over one sink: a stream redactor per key, flushed when a step or the
    run finishes. */
module RedactingSinks {
  import opened Options
  import opened Redaction
  import opened StreamRedaction

  datatype Key = Key(path: string, kind: string, attempt: int)

  datatype Record = Record(key: Key, text: string, name: string)

  /** What happens to a sink: a stream record, or the end of one step (of the run: `None`). */
  datatype Op = Stream(record: Record) | Finish(path: Option<string>)

  /** The text forwarded for one key, in order. */
  function TextFor(k: Key, records: seq<Record>): string {
    if records == [] then ""
    else
      var r := records[|records| - 1];
      TextFor(k, records[..|records| - 1]) + if r.key == k then r.text else ""
  }

  predicate Ends(path: Option<string>, k: Key) {
    path.None? || path.value == k.path
  }

  datatype Track = Track(pending: string, out: string)

  /** One key's stream through a history of the whole sink. */
  ghost function TrackOf(lits: seq<Literal>, k: Key, history: seq<Op>): Track
    requires Table(lits)
  {
    if history == [] then Track("", "")
    else TrackStep(lits, k, TrackOf(lits, k, history[..|history| - 1]), history[|history| - 1])
  }

  ghost function TrackStep(lits: seq<Literal>, k: Key, t: Track, op: Op): Track
    requires Table(lits)
  {
    match op
    case Stream(r) =>
      if r.key != k then t
      else Track(FeedRest(lits, t.pending, r.text), t.out + FeedOut(lits, t.pending, r.text))
    case Finish(path) =>
      if !Ends(path, k) then t else Track("", t.out + RedactAll(lits, t.pending))
  }

  class RedactingSink {
    const lits: seq<Literal>
    var streams: map<Key, StreamRedactor>
    /** What the wrapped sink has observed. */
    var inner: seq<Record>
    ghost var history: seq<Op>

    ghost function PendingOf(k: Key): string
      reads this, streams.Values
    {
      if k in streams then streams[k].pending else ""
    }

    /** What the key has forwarded once its stream is flushed. */
    ghost function FlushedText(k: Key): string
      requires Table(lits)
      reads this, streams.Values
    {
      TextFor(k, inner) + RedactAll(lits, PendingOf(k))
    }

    ghost predicate Streams()
      reads this, streams.Values
    {
      && Table(lits)
      && (lits == [] ==> streams == map[])
      && (forall k | k in streams :: streams[k].Valid() && streams[k].lits == lits)
      && (forall j, k | j in streams && k in streams && j != k :: streams[j] != streams[k])
    }

    /** For every key, what was forwarded and what is held is that key's own stream. */
    ghost predicate Valid()
      reads this, streams.Values
    {
      Streams() && forall k :: Track(PendingOf(k), TextFor(k, inner)) == TrackOf(lits, k, history)
    }

    constructor (lits: seq<Literal>)
      requires Table(lits)
      ensures Valid() && this.lits == lits && history == [] && inner == []
    {
      this.lits := lits;
      streams := map[];
      inner := [];
      history := [];
    }

    method FeedKey(key: Key, text: string) returns (out: string)
      requires Streams() && lits != [] && text != ""
      modifies `streams, streams.Values
      ensures Streams() && history == old(history)
      ensures out == FeedOut(lits, old(PendingOf(key)), text)
      ensures PendingOf(key) == FeedRest(lits, old(PendingOf(key)), text)
      ensures forall k | k != key :: PendingOf(k) == old(PendingOf(k))
      ensures forall k | k in streams :: (k in old(streams) && streams[k] == old(streams[k])) || fresh(streams[k])
    {
      if key !in streams {
        var s := new StreamRedactor(lits);
        streams := streams[key := s];
      }
      out := streams[key].Feed(text);
    }

    method EmitStream(record: Record)
      requires Valid()
      modifies this, streams.Values
      ensures Valid() && history == old(history) + [Stream(record)]
      ensures |inner| == |old(inner)| + 1 && old(inner) <= inner
      ensures inner[|old(inner)|].key == record.key && inner[|old(inner)|].name == RedactAll(lits, record.name)
      ensures forall k | k in streams :: (k in old(streams) && streams[k] == old(streams[k])) || fresh(streams[k])
    {
      var text := record.text;
      if lits != [] && text != "" {
        text := FeedKey(record.key, text);
      } else if lits == [] {
        EmptyTableHoldsNothing(text);
      }
      var name := RedactValues(lits, record.name);
      inner := inner + [Record(record.key, text, name)];
      history := history + [Stream(record)];
      assert inner[..|inner| - 1] == old(inner) && history[..|history| - 1] == old(history);
      forall k ensures Track(PendingOf(k), TextFor(k, inner)) == TrackOf(lits, k, history) {
        assert old(Track(PendingOf(k), TextFor(k, inner))) == TrackOf(lits, k, old(history));
      }
    }

    method FlushOne(key: Key)
      requires Streams() && key in streams
      modifies this, streams.Values
      ensures Streams() && streams == old(streams) - {key}
      ensures PendingOf(key) == ""
      ensures TextFor(key, inner) == old(FlushedText(key))
      ensures forall k | k != key :: PendingOf(k) == old(PendingOf(k)) && TextFor(k, inner) == old(TextFor(k, inner))
      ensures history == old(history) && old(inner) <= inner
    {
      var tail := streams[key].Flush();
      streams := streams - {key};
      if tail != "" {
        inner := inner + [Record(key, tail, "")];
        assert inner[..|inner| - 1] == old(inner);
      }
    }

    method FlushKeys(path: Option<string>)
      requires Streams()
      modifies this, streams.Values
      ensures Streams() && history == old(history) && old(inner) <= inner
      ensures forall k | k in streams :: k in old(streams) && streams[k] == old(streams[k]) && !Ends(path, k)
      ensures forall k | k in old(streams) && !Ends(path, k) :: k in streams
      ensures forall k | !Ends(path, k) ::
        PendingOf(k) == old(PendingOf(k)) && TextFor(k, inner) == old(TextFor(k, inner))
      ensures forall k | Ends(path, k) :: PendingOf(k) == "" && TextFor(k, inner) == old(FlushedText(k))
    {
      RedactEmpty(lits);
      var keys := set k | k in streams && Ends(path, k);
      ghost var done: set<Key> := {};
      while keys != {}
        invariant Streams() && history == old(history) && old(inner) <= inner
        invariant forall k | k in streams :: k in old(streams) && streams[k] == old(streams[k])
        invariant forall k | k in old(streams) :: k in streams || k in done
        invariant forall k :: k in keys <==> k in streams && Ends(path, k)
        invariant forall k | k in done :: Ends(path, k)
        invariant forall k | k in old(streams) && Ends(path, k) :: k in keys || k in done
        invariant forall k | k !in done ::
          PendingOf(k) == old(PendingOf(k)) && TextFor(k, inner) == old(TextFor(k, inner))
        invariant forall k | k in done :: PendingOf(k) == "" && TextFor(k, inner) == old(FlushedText(k))
        decreases keys
      {
        var k :| k in keys;
        FlushOne(k);
        keys, done := keys - {k}, done + {k};
      }
    }

    /** Flush every stream that `path` ends, dropping it. */
    method Flush(path: Option<string>)
      requires Valid()
      modifies this, streams.Values
      ensures Valid() && history == old(history) + [Finish(path)] && old(inner) <= inner
      ensures path == None ==>
        && streams == map[]
        && forall k :: TextFor(k, inner) == old(TextFor(k, inner)) + RedactAll(lits, old(PendingOf(k)))
      ensures path.Some? ==>
        && (forall k: Key | k.path == path.value ::
              k !in streams && TextFor(k, inner) == old(TextFor(k, inner)) + RedactAll(lits, old(PendingOf(k))))
        && (forall k: Key | k.path != path.value ::
              && (k in streams <==> k in old(streams)) && (k in streams ==> streams[k] == old(streams[k]))
              && PendingOf(k) == old(PendingOf(k)) && TextFor(k, inner) == old(TextFor(k, inner)))
    {
      FlushKeys(path);
      history := history + [Finish(path)];
      assert history[..|history| - 1] == old(history);
      forall k ensures Track(PendingOf(k), TextFor(k, inner)) == TrackOf(lits, k, history) {
        assert old(Track(PendingOf(k), TextFor(k, inner))) == TrackOf(lits, k, old(history));
      }
    }
  }

  // ----- every stream on its own --------------------------------------------------------------

  /** The text received for `k`: the segments already ended, and the one still open. */
  datatype Received = Received(closed: seq<string>, open: string)

  function ReceivedFor(k: Key, history: seq<Op>): Received {
    if history == [] then Received([], "")
    else
      var r := ReceivedFor(k, history[..|history| - 1]);
      match history[|history| - 1]
      case Stream(x) => if x.key == k then r.(open := r.open + x.text) else r
      case Finish(path) => if Ends(path, k) then Received(r.closed + [r.open], "") else r
  }

  function RedactedConcat(lits: seq<Literal>, segments: seq<string>): string
    requires Table(lits)
  {
    if segments == [] then ""
    else RedactedConcat(lits, segments[..|segments| - 1]) + RedactAll(lits, segments[|segments| - 1])
  }

  /** Whatever else the sink carries, one key's output is a beginning of the redaction of its own
      text, completed by redacting what is held. */
  lemma {:induction false} TrackIsExact(lits: seq<Literal>, k: Key, history: seq<Op>, future: string)
    requires Table(lits) && SeamFree(lits)
    ensures var t, r := TrackOf(lits, k, history), ReceivedFor(k, history);
            t.out + RedactAll(lits, t.pending + future)
            == RedactedConcat(lits, r.closed) + RedactAll(lits, r.open + future)
    decreases |history|
  {
    if history != [] {
      var before, op := history[..|history| - 1], history[|history| - 1];
      var t, r := TrackOf(lits, k, before), ReceivedFor(k, before);
      match op
      case Stream(x) =>
        if x.key == k {
          TrackIsExact(lits, k, before, x.text + future);
          FeedIsExact(lits, t.pending, x.text, future);
          assert t.pending + (x.text + future) == t.pending + x.text + future;
          assert r.open + (x.text + future) == r.open + x.text + future;
          var out := FeedOut(lits, t.pending, x.text);
          var rest := RedactAll(lits, FeedRest(lits, t.pending, x.text) + future);
          assert t.out + (out + rest) == t.out + out + rest;
        } else {
          TrackIsExact(lits, k, before, future);
        }
      case Finish(path) =>
        if Ends(path, k) {
          TrackIsExact(lits, k, before, "");
          assert t.pending + "" == t.pending && r.open + "" == r.open && "" + future == future;
          assert (r.closed + [r.open])[..|r.closed|] == r.closed;
        } else {
          TrackIsExact(lits, k, before, future);
        }
    }
  }

  /** Right after its step or the run finished, the sink has forwarded exactly the redaction of every
      segment of text that key received between flushes, the last one included, and holds nothing. */
  lemma FlushedKeyIsRedacted(lits: seq<Literal>, k: Key, history: seq<Op>)
    requires Table(lits) && SeamFree(lits)
    ensures var r := ReceivedFor(k, history);
            var all := Track("", RedactedConcat(lits, r.closed) + RedactAll(lits, r.open));
            && TrackOf(lits, k, history + [Finish(None)]) == all
            && TrackOf(lits, k, history + [Finish(Some(k.path))]) == all
    ensures forall p | p != k.path :: TrackOf(lits, k, history + [Finish(Some(p))]) == TrackOf(lits, k, history)
  {
    var t, r := TrackOf(lits, k, history), ReceivedFor(k, history);
    forall op ensures TrackOf(lits, k, history + [op]) == TrackStep(lits, k, t, op) {
      assert (history + [op])[..|history + [op]| - 1] == history;
    }
    TrackIsExact(lits, k, history, "");
    assert t.pending + "" == t.pending && r.open + "" == r.open;
  }

  /** The open segment is what was received since the key's step or the run finished last. */
  lemma ReceivedNext(k: Key, history: seq<Op>, x: Record, p: string)
    ensures var r := ReceivedFor(k, history);
            && ReceivedFor(k, history + [Stream(x)])
               == (if x.key == k then Received(r.closed, r.open + x.text) else r)
            && ReceivedFor(k, history + [Finish(None)]) == Received(r.closed + [r.open], "")
            && ReceivedFor(k, history + [Finish(Some(p))])
               == (if p == k.path then Received(r.closed + [r.open], "") else r)
  {
    assert (history + [Stream(x)])[..|history|] == history;
    assert (history + [Finish(None)])[..|history|] == history;
    assert (history + [Finish(Some(p))])[..|history|] == history;
  }

  predicate Concerns(k: Key, op: Op) {
    match op
    case Stream(r) => r.key == k
    case Finish(path) => Ends(path, k)
  }

  /** The part of a history that concerns one key. */
  function Projected(k: Key, history: seq<Op>): seq<Op> {
    if history == [] then []
    else
      var rest, op := Projected(k, history[..|history| - 1]), history[|history| - 1];
      if Concerns(k, op) then rest + [op] else rest
  }

  /** Streams do not interfere: interleaving other keys changes nothing a key forwards. */
  lemma {:induction false} OthersDoNotInterfere(lits: seq<Literal>, k: Key, history: seq<Op>)
    requires Table(lits)
    ensures TrackOf(lits, k, history) == TrackOf(lits, k, Projected(k, history))
    ensures forall op | op in Projected(k, history) ::
      match op
      case Stream(r) => r.key == k
      case Finish(Some(path)) => path == k.path
      case Finish(None) => true
    decreases |history|
  {
    if history != [] {
      var before, op := history[..|history| - 1], history[|history| - 1];
      OthersDoNotInterfere(lits, k, before);
      var rest := Projected(k, before);
      assert (rest + [op])[..|rest|] == rest;
    }
  }
}
